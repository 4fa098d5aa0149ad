/** The kernel heap as it runs: a doubly linked list of block headers laid over
    the region they describe, searched and rewired in place. */
module KernelHeap {
  import opened HeapChain
  import opened HeapRuns

  /** What a 32-bit counter holds. */
  function Wrap(x: int): nat
  {
    x % 0x1_0000_0000
  }

  lemma WrapAdd(a: int, b: int)
    ensures Wrap(Wrap(a) + b) == Wrap(a + b)
  {
  }

  class Header {
    const addr: nat
    var size: nat
    var isFree: bool
    var next: Header?
    var prev: Header?

    constructor (addr: nat, size: nat, next: Header?, prev: Header?)
      ensures this.addr == addr && this.size == size && isFree && this.next == next && this.prev == prev
    {
      this.addr, this.size, isFree := addr, size, true;
      this.next, this.prev := next, prev;
    }
  }

  ghost function Neighbour(nodes: seq<Header>, i: int): Header?
  {
    if 0 <= i < |nodes| then nodes[i] else null
  }

  /** `nodes` is a doubly linked list. */
  ghost predicate Chained(nodes: seq<Header>)
    reads nodes
  {
    && (forall i, j | 0 <= i < j < |nodes| :: nodes[i] != nodes[j])
    && (forall i {:trigger nodes[i].next} | 0 <= i < |nodes| :: nodes[i].next == Neighbour(nodes, i + 1))
    && (forall i {:trigger nodes[i].prev} | 0 <= i < |nodes| :: nodes[i].prev == Neighbour(nodes, i - 1))
  }

  function Inserted(nodes: seq<Header>, r: nat, rest: Header): (t: seq<Header>)
    requires r < |nodes|
    ensures |t| == |nodes| + 1
    ensures forall j | 0 <= j <= r :: t[j] == nodes[j]
    ensures t[r + 1] == rest
    ensures forall j | r + 1 < j < |t| :: t[j] == nodes[j - 1]
    ensures forall h | h in t :: h in nodes || h == rest
  {
    nodes[..r + 1] + [rest] + nodes[r + 1..]
  }

  function Removed(nodes: seq<Header>, i: nat): (t: seq<Header>)
    requires i + 1 < |nodes|
    ensures |t| == |nodes| - 1
    ensures forall j | 0 <= j <= i :: t[j] == nodes[j]
    ensures forall j | i < j < |t| :: t[j] == nodes[j + 1]
    ensures forall h | h in t :: h in nodes
  {
    nodes[..i + 1] + nodes[i + 2..]
  }

  /** The headers `nodes` describe the blocks of `c`. */
  ghost predicate Describes(nodes: seq<Header>, c: Chain)
    reads nodes
  {
    && |nodes| == |c|
    && (forall i | 0 <= i < |c| :: c[i] == Blk(nodes[i].addr, nodes[i].size, nodes[i].isFree))
  }

  /** Casting the address of a block to a header gives the header of that block. */
  ghost predicate Indexed(overlay: map<nat, Header>, nodes: seq<Header>)
  {
    forall i | 0 <= i < |nodes| :: nodes[i].addr in overlay && overlay[nodes[i].addr] == nodes[i]
  }

  lemma IndexedInsert(overlay: map<nat, Header>, nodes: seq<Header>, r: nat, rest: Header)
    requires Indexed(overlay, nodes) && r < |nodes|
    requires forall j | 0 <= j < |nodes| :: nodes[j].addr != rest.addr
    ensures Indexed(overlay[rest.addr := rest], Inserted(nodes, r, rest))
  {
  }

  /** Link `rest`, whose own links are set already, behind `best`. */
  method LinkAfter(best: Header, rest: Header, ghost nodes: seq<Header>, ghost r: nat)
    requires Chained(nodes) && r < |nodes| && best == nodes[r] && rest !in nodes
    requires rest.prev == best && rest.next == best.next
    modifies best`next, nodes`prev
    ensures Chained(Inserted(nodes, r, rest))
  {
    assert nodes[r].next == Neighbour(nodes, r + 1);
    if best.next != null {
      best.next.prev := rest;
    }
    best.next := rest;
    ghost var t := Inserted(nodes, r, rest);
    forall j | 0 <= j < |t|
      ensures t[j].next == Neighbour(t, j + 1) && t[j].prev == Neighbour(t, j - 1)
    {
      if j <= r {
        assert t[j] == nodes[j] && Neighbour(t, j - 1) == Neighbour(nodes, j - 1);
        assert old(nodes[j].next) == Neighbour(nodes, j + 1) && old(nodes[j].prev) == Neighbour(nodes, j - 1);
      } else if j > r + 1 {
        assert t[j] == nodes[j - 1] && Neighbour(t, j + 1) == Neighbour(nodes, j);
        assert old(nodes[j - 1].next) == Neighbour(nodes, j) && old(nodes[j - 1].prev) == Neighbour(nodes, j - 2);
      }
    }
  }

  /** Cut `need` bytes off the front of the block `best` and link the rest behind it as a new free block. */
  method CutNode(best: Header, need: nat, ghost nodes: seq<Header>, ghost r: nat, ghost c: Chain) returns (rest: Header)
    requires Chained(nodes) && Describes(nodes, c) && r < |nodes| && best == nodes[r]
    requires best.size >= need + HEADER + MIN_SIZE
    modifies best`next, best`size, nodes`prev
    ensures fresh(rest) && rest.addr == best.addr + need
    ensures Chained(Inserted(nodes, r, rest)) && Describes(Inserted(nodes, r, rest), Carve(c, r, need))
  {
    rest := new Header(best.addr + need, best.size - need, best.next, best);
    LinkAfter(best, rest, nodes, r);
    best.size := need;
    CarveAt(c, r, need);
    ghost var t, d := Inserted(nodes, r, rest), Carve(c, r, need);
    forall j | 0 <= j < |t|
      ensures d[j] == Blk(t[j].addr, t[j].size, t[j].isFree)
    {
      if j < r {
        assert t[j] == nodes[j] && d[j] == c[j];
      } else if j > r + 1 {
        assert t[j] == nodes[j - 1] && d[j] == c[j - 1];
      }
    }
  }

  /** Unlink the element behind `header`. */
  method UnlinkAfter(header: Header, ghost nodes: seq<Header>, ghost i: nat)
    requires Chained(nodes) && i + 1 < |nodes| && header == nodes[i]
    modifies header`next, nodes`prev
    ensures Chained(Removed(nodes, i))
  {
    assert nodes[i].next == Neighbour(nodes, i + 1);
    assert nodes[i + 1].next == Neighbour(nodes, i + 2);
    header.next := header.next.next;
    if header.next != null {
      header.next.prev := header;
    }
    ghost var t := Removed(nodes, i);
    forall j | 0 <= j < |t|
      ensures t[j].next == Neighbour(t, j + 1) && t[j].prev == Neighbour(t, j - 1)
    {
      if j <= i {
        assert t[j] == nodes[j] && Neighbour(t, j - 1) == Neighbour(nodes, j - 1);
        assert old(nodes[j].next) == Neighbour(nodes, j + 1) && old(nodes[j].prev) == Neighbour(nodes, j - 1);
      } else {
        assert t[j] == nodes[j + 1] && Neighbour(t, j + 1) == Neighbour(nodes, j + 2);
        assert old(nodes[j + 1].next) == Neighbour(nodes, j + 2) && old(nodes[j + 1].prev) == Neighbour(nodes, j);
      }
    }
  }

  /** Absorb the block behind `header`. */
  method MergeNode(header: Header, ghost nodes: seq<Header>, ghost i: nat, ghost c: Chain)
    requires Chained(nodes) && Describes(nodes, c) && i + 1 < |nodes| && header == nodes[i]
    modifies header`next, header`size, nodes`prev
    ensures Chained(Removed(nodes, i)) && Describes(Removed(nodes, i), Join(c, i))
  {
    assert nodes[i].next == Neighbour(nodes, i + 1);
    header.size := header.size + header.next.size;
    UnlinkAfter(header, nodes, i);
    JoinAt(c, i);
    ghost var t, d := Removed(nodes, i), Join(c, i);
    forall j | 0 <= j < |t|
      ensures d[j] == Blk(t[j].addr, t[j].size, t[j].isFree)
    {
      if j < i {
        assert t[j] == nodes[j] && d[j] == c[j];
      } else if j > i {
        assert t[j] == nodes[j + 1] && d[j] == c[j + 1];
      }
    }
  }

  /** `x` is the address of a byte of some payload in use. */
  ghost predicate InPayload(c: Chain, x: nat)
  {
    exists i :: 0 <= i < |c| && !c[i].free && c[i].addr + HEADER <= x < End(c[i])
  }

  /** The payload in use that holds `x` meets no header. */
  lemma HeaderApart(c: Chain, start: nat, x: nat, j: nat)
    requires WellFormed(c, start) && InPayload(c, x) && j < |c|
    ensures start <= x < start + REGION
    ensures !(c[j].addr <= x < c[j].addr + HEADER)
    ensures c[j].free ==> !(c[j].addr <= x < End(c[j]))
  {
    var i :| 0 <= i < |c| && !c[i].free && c[i].addr + HEADER <= x < End(c[i]);
    InRegion(c, start, start + REGION, i);
    if i < j { Ordered(c, start, start + REGION, i, j); }
    if j < i { Ordered(c, start, start + REGION, j, i); }
  }

  class KernelHeap {
    const start: nat
    const mem: array<bv8>              // the bytes of the region
    var head: Header
    var overlay: map<nat, Header>      // the header last laid over each address
    var totalAllocated: nat            // the three counters are 32 bits wide
    var totalFreed: nat
    var currentUsage: nat
    ghost var nodes: seq<Header>
    ghost var repr: set<Header>        // all headers there have been
    ghost var s: Heap

    /** The header list realises the chain `c`. */
    ghost predicate Linked(c: Chain)
      reads `head, `overlay, `nodes, `repr, nodes
    {
      && |nodes| > 0 && head == nodes[0] && (forall j | 0 <= j < |nodes| :: nodes[j] in repr)
      && Chained(nodes) && Describes(nodes, c) && Indexed(overlay, nodes)
    }

    ghost predicate Valid()
      reads this, nodes
    {
      && mem.Length == REGION
      && Inv(s, start) && Linked(s.chain)
      && Counted()
    }

    /** `kmalloc_init` on the 256 pages at `heapStart`. */
    constructor (heapStart: nat, region: array<bv8>)
      requires heapStart > 0 && heapStart % 8 == 0 && region.Length == REGION
      ensures Valid() && s == Initial(heapStart) && start == heapStart && mem == region
      ensures fresh(repr)
    {
      start, mem := heapStart, region;
      var h := new Header(heapStart, REGION, null, null);
      head := h;
      overlay := map[heapStart := h];
      totalAllocated, totalFreed, currentUsage := 0, 0, 0;
      nodes, repr := [h], {h};
      s := Initial(heapStart);
      new;
      InitialInv(heapStart);
    }

    /** Writing a header overwrites its 16 bytes of the region. */
    method StoreHeader(addr: nat, ghost c: Chain)
      requires Linked(c) && mem.Length == REGION && start <= addr && addr + HEADER <= start + REGION
      modifies mem
      ensures Linked(c)
      ensures forall k | 0 <= k < REGION && !(addr <= start + k < addr + HEADER) :: mem[k] == old(mem[k])
    {
      for i := 0 to HEADER
        invariant forall k | 0 <= k < REGION && !(addr <= start + k < addr + HEADER) :: mem[k] == old(mem[k])
      {
        mem[addr - start + i] := *;
      }
      StillLinked(c);
    }

    /** Bytes of the region are no part of the header list. */
    twostate lemma StillLinked(c: Chain)
      requires old(Linked(c)) && unchanged(`head, `overlay, `nodes, `repr) && unchanged(nodes)
      ensures Linked(c)
    {
    }

    /** The search loop of kmalloc. */
    method Search(need: nat) returns (best: Header?, ghost r: int)
      requires Linked(s.chain)
      ensures r == BestFit(s.chain, need, |s.chain|)
      ensures best == if r < 0 then null else nodes[r]
    {
      var current: Header? := head;
      ghost var n := 0;
      best, r := null, -1;
      while current != null
        invariant 0 <= n <= |nodes| && current == if n < |nodes| then nodes[n] else null
        invariant r == BestFit(s.chain, need, n)
        invariant best == if r < 0 then null else nodes[r]
        decreases |nodes| - n
      {
        if current.isFree && current.size >= need {
          if best == null || current.size < best.size {
            best, r := current, n;
          }
        }
        assert nodes[n].next == Neighbour(nodes, n + 1);
        current := current.next;
        n := n + 1;
      }
    }

    /** Cut `need` bytes off the front of the block `best`, listing the rest as a new free block. */
    method Cut(best: Header, ghost r: nat, need: nat)
      requires Linked(s.chain) && r < |nodes| && best == nodes[r]
      requires best.size >= need + HEADER + MIN_SIZE
      requires forall j | 0 <= j < |nodes| :: nodes[j].addr != best.addr + need
      modifies this`nodes, this`overlay, this`repr, repr
      ensures Linked(Carve(s.chain, r, need)) && nodes[r] == best
      ensures fresh(repr - old(repr))
    {
      var rest := CutNode(best, need, nodes, r, s.chain);
      Enter(rest, r, Carve(s.chain, r, need));
    }

    /** Lay the header `rest`, linked behind the `r`-th, over its address. */
    method Enter(rest: Header, ghost r: nat, ghost c: Chain)
      requires r < |nodes| && head == nodes[0] && Indexed(overlay, nodes) && rest !in repr
      requires (forall j | 0 <= j < |nodes| :: nodes[j] in repr && nodes[j].addr != rest.addr)
      requires Chained(Inserted(nodes, r, rest)) && Describes(Inserted(nodes, r, rest), c)
      modifies this`nodes, this`overlay, this`repr
      ensures Linked(c) && nodes == Inserted(old(nodes), r, rest) && repr == old(repr) + {rest}
    {
      IndexedInsert(overlay, nodes, r, rest);
      overlay, repr := overlay[rest.addr := rest], repr + {rest};
      nodes := Inserted(nodes, r, rest);
    }

    /** Absorb the block behind `header`, at index `i` of the chain `c`. */
    method MergeNext(header: Header, ghost i: nat, ghost c: Chain)
      requires mem.Length == REGION && Linked(c) && i + 1 < |nodes| && header == nodes[i]
      modifies this`nodes, repr
      ensures Linked(Join(c, i)) && nodes == Removed(old(nodes), i)
    {
      ghost var was := nodes;
      MergeNode(header, nodes, i, c);
      nodes := Removed(was, i);
    }

    /** Clear `n` bytes from address `p`. */
    method Clear(p: nat, n: nat, ghost c: Chain)
      requires Linked(c) && mem.Length == REGION && start <= p && p + n <= start + REGION
      modifies mem
      ensures Linked(c)
      ensures forall k | 0 <= k < REGION :: mem[k] == if p <= start + k < p + n then 0 else old(mem[k])
    {
      for i := 0 to n
        invariant forall k | 0 <= k < REGION :: mem[k] == if p <= start + k < p + i then 0 else old(mem[k])
      {
        mem[p - start + i] := 0;
      }
      StillLinked(c);
    }

    /** The payload bytes in use in `c` are as they were. */
    twostate predicate PayloadsKept(c: Chain)
      requires mem.Length == REGION
      reads mem
    {
      forall k | 0 <= k < REGION && InPayload(c, start + k) :: mem[k] == old(mem[k])
    }

    /** The 16 bytes at `addr` are in the region and in no payload of `c`. */
    ghost predicate Outside(c: Chain, addr: nat)
    {
      && start <= addr && addr + HEADER <= start + REGION
      && (forall x: nat | addr <= x < addr + HEADER :: !InPayload(c, x))
    }

    /** The header of every block is outside the payloads in use. */
    lemma HeaderOutside(c: Chain, j: nat)
      requires WellFormed(c, start) && j < |c|
      ensures Outside(c, c[j].addr)
    {
      InRegion(c, start, start + REGION, j);
      forall x: nat | InPayload(c, x)
        ensures !(c[j].addr <= x < c[j].addr + HEADER)
      {
        HeaderApart(c, start, x, j);
      }
    }

    /** So is the header of the rest of a free block cut at `need` bytes, and no header is there yet. */
    lemma RestOutside(c: Chain, r: nat, need: nat)
      requires WellFormed(c, start) && r < |c| && c[r].free
      requires need >= HEADER && c[r].size >= need + HEADER + MIN_SIZE
      ensures Outside(c, c[r].addr + need)
      ensures forall j | 0 <= j < |c| :: c[j].addr != c[r].addr + need
    {
      InRegion(c, start, start + REGION, r);
      forall x: nat | InPayload(c, x)
        ensures !(c[r].addr <= x < End(c[r]))
      {
        HeaderApart(c, start, x, r);
      }
      forall j | 0 <= j < |c|
        ensures c[j].addr != c[r].addr + need
      {
        if r < j { Ordered(c, start, start + REGION, r, j); }
        if j < r { Ordered(c, start, start + REGION, j, r); }
      }
    }

    /** Rewrite the bytes of the header of block `j`. */
    method StoreBlock(h: Header, ghost j: nat)
      requires mem.Length == REGION && Linked(s.chain) && WellFormed(s.chain, start)
      requires j < |nodes| && h == nodes[j]
      modifies mem
      ensures Linked(s.chain) && PayloadsKept(s.chain)
    {
      HeaderOutside(s.chain, j);
      StoreHeader(h.addr, s.chain);
    }

    /** Write the headers that a split writes: the rest's, the block's own, and that of the block behind
        it, whose back link changes. */
    method StoreSplit(best: Header, ghost r: nat, need: nat)
      requires mem.Length == REGION && WellFormed(s.chain, start) && Linked(s.chain)
      requires r < |nodes| && best == nodes[r] && s.chain[r].free && need >= HEADER
      requires s.chain[r].size >= need + HEADER + MIN_SIZE
      modifies mem
      ensures Linked(s.chain) && PayloadsKept(s.chain)
    {
      RestOutside(s.chain, r, need);
      StoreHeader(best.addr + need, s.chain);
      assert nodes[r].next == Neighbour(nodes, r + 1);
      if best.next != null {
        StoreBlock(best.next, r + 1);
      }
      StoreBlock(best, r);
    }

    method CutAndStore(best: Header, ghost r: nat, need: nat)
      requires mem.Length == REGION && WellFormed(s.chain, start) && Linked(s.chain)
      requires r < |nodes| && best == nodes[r] && s.chain[r].free && need >= HEADER
      requires s.chain[r].size >= need + HEADER + MIN_SIZE
      modifies this`nodes, this`overlay, this`repr, repr, mem
      ensures Linked(Carve(s.chain, r, need)) && nodes[r] == best
      ensures fresh(repr - old(repr))
      ensures PayloadsKept(s.chain)
    {
      RestOutside(s.chain, r, need);
      StoreSplit(best, r, need);
      Cut(best, r, need);
    }

    /** Split the chosen block if it is large enough. */
    method Split(best: Header, ghost r: nat, need: nat)
      requires mem.Length == REGION && WellFormed(s.chain, start) && Linked(s.chain)
      requires r < |nodes| && best == nodes[r] && Fits(s.chain[r], need) && need >= HEADER
      modifies this`nodes, this`overlay, this`repr, repr, mem
      ensures Linked(Carve(s.chain, r, need)) && nodes[r] == best
      ensures fresh(repr - old(repr))
      ensures PayloadsKept(s.chain)
    {
      if best.size >= need + HEADER + MIN_SIZE {
        CutAndStore(best, r, need);
      }
    }

    /** Set the flag of block `i`. */
    method SetFree(h: Header, free: bool, ghost i: nat, ghost c: Chain)
      requires mem.Length == REGION && Linked(c) && i < |nodes| && h == nodes[i]
      modifies h`isFree
      ensures Linked(c[i := c[i].(free := free)])
    {
      h.isFree := free;
    }

    /** The locked part of kmalloc after the search: take `best` into use and clear `size` bytes of it. */
    method TakeBlock(best: Header, ghost r: nat, size: nat)
      requires mem.Length == REGION && Linked(s.chain) && WellFormed(s.chain, start) && size > 0
      requires r < |nodes| && best == nodes[r] && Fits(s.chain[r], Need(size))
      modifies this`nodes, this`overlay, this`repr, repr, mem
      ensures Linked(Take(s.chain, r, Need(size))) && nodes[r] == best
      ensures fresh(repr - old(repr))
      ensures PayloadsKept(s.chain)
      ensures start <= best.addr && best.addr + HEADER + size <= start + REGION
      ensures forall k | 0 <= k < REGION && best.addr + HEADER <= start + k < best.addr + HEADER + size :: mem[k] == 0
    {
      InRegion(s.chain, start, start + REGION, r);
      FreeOutside(s.chain, r);
      HeaderOutside(s.chain, r);
      Split(best, r, Need(size));
      Occupy(best, r, size, Carve(s.chain, r, Need(size)), s.chain);
    }

    /** Mark `best` used and clear `size` bytes of it, where `live` has no payloads. */
    method Occupy(best: Header, ghost r: nat, size: nat, ghost c: Chain, ghost live: Chain)
      requires mem.Length == REGION && Linked(c) && r < |nodes| && best == nodes[r]
      requires start <= best.addr && best.addr + HEADER + size <= start + REGION
      requires forall x: nat | best.addr <= x < best.addr + HEADER + size :: !InPayload(live, x)
      modifies best`isFree, mem
      ensures Linked(c[r := c[r].(free := false)])
      ensures PayloadsKept(live)
      ensures forall k | 0 <= k < REGION && best.addr + HEADER <= start + k < best.addr + HEADER + size :: mem[k] == 0
    {
      SetFree(best, false, r, c);
      StoreHeader(best.addr, c[r := c[r].(free := false)]);
      Clear(best.addr + HEADER, size, c[r := c[r].(free := false)]);
      forall k | 0 <= k < REGION && InPayload(live, start + k)
        ensures mem[k] == old(mem[k])
      {
        assert !(best.addr <= start + k < best.addr + HEADER + size);
      }
    }

    /** The bytes of a free block are in no payload. */
    lemma FreeOutside(c: Chain, r: nat)
      requires WellFormed(c, start) && r < |c| && c[r].free
      ensures forall x: nat | c[r].addr <= x < End(c[r]) :: !InPayload(c, x)
    {
      forall x: nat | InPayload(c, x)
        ensures !(c[r].addr <= x < End(c[r]))
      {
        HeaderApart(c, start, x, r);
      }
    }

    /** kmalloc: a pointer to `size` zeroed bytes, or 0. */
    method Kmalloc(size: nat) returns (ptr: nat)
      requires Valid()
      modifies this, repr, mem
      ensures Valid() && s == MallocStep(old(s), size) && ptr == MallocPtr(old(s), size)
      ensures fresh(repr - old(repr))
      ensures PayloadsKept(old(s.chain))
      ensures ptr != 0 ==> start <= ptr && ptr + size <= start + REGION
      ensures ptr != 0 ==> forall k | 0 <= k < REGION && ptr <= start + k < ptr + size :: mem[k] == 0
      ensures ptr == 0 ==> mem[..] == old(mem[..])
      ensures ptr != 0 ==> forall x: nat | ptr <= x < ptr + size :: !InPayload(old(s.chain), x) && InPayload(s.chain, x)
    {
      if size == 0 { return 0; }
      if size > MAX_SIZE { return 0; }
      var best, r := Search(Need(size));
      if best == null { return 0; }
      MallocKeeps(s, start, size);
      MallocFields(s, size);
      GrantedBytes(r, size);
      Grant(best, r, size, MallocStep(s, size));
      return best.addr + HEADER;
    }

    /** The bytes granted lie in a block that was free and is then used. */
    lemma GrantedBytes(r: nat, size: nat)
      requires WellFormed(s.chain, start) && r < |s.chain| && Fits(s.chain[r], Need(size))
      ensures var p := s.chain[r].addr + HEADER;
              forall x: nat | p <= x < p + size :: !InPayload(s.chain, x) && InPayload(Take(s.chain, r, Need(size)), x)
    {
      FreeOutside(s.chain, r);
      TakenSize(s.chain, start, r, size);
      var d, p := Take(s.chain, r, Need(size)), s.chain[r].addr + HEADER;
      forall x: nat | p <= x < p + size
        ensures InPayload(d, x)
      {
        assert 0 <= r < |d| && !d[r].free && d[r].addr + HEADER <= x < End(d[r]);
      }
    }

    /** The locked part of kmalloc after the search. */
    method Grant(best: Header, ghost r: nat, size: nat, ghost t: Heap)
      requires Valid() && size > 0 && r < |nodes| && best == nodes[r] && Fits(s.chain[r], Need(size))
      requires Inv(t, start) && t.chain == Take(s.chain, r, Need(size))
      requires t.totalAllocated == s.totalAllocated + size && t.totalFreed == s.totalFreed
      requires t.usage == s.usage + t.chain[r].size
      modifies this, repr, mem
      ensures Valid() && s == t
      ensures fresh(repr - old(repr))
      ensures PayloadsKept(old(s.chain))
      ensures start <= best.addr && best.addr + HEADER + size <= start + REGION
      ensures forall k | 0 <= k < REGION && best.addr + HEADER <= start + k < best.addr + HEADER + size :: mem[k] == 0
    {
      TakeBlock(best, r, size);
      Account(t, size, best.size);
    }

    ghost predicate Counted()
      reads `s, `totalAllocated, `totalFreed, `currentUsage
    {
      && totalAllocated == Wrap(s.totalAllocated)
      && totalFreed == Wrap(s.totalFreed)
      && currentUsage == Wrap(s.usage)
    }

    /** The statistics after an allocation of `size` bytes in a block of `blockSize`. */
    method Account(ghost t: Heap, size: nat, blockSize: nat)
      requires Counted() && Linked(t.chain)
      requires t.totalAllocated == s.totalAllocated + size && t.totalFreed == s.totalFreed
      requires t.usage == s.usage + blockSize
      modifies this`s, this`totalAllocated, this`currentUsage
      ensures s == t && Counted() && Linked(t.chain)
    {
      WrapAdd(s.totalAllocated, size);
      WrapAdd(s.usage, blockSize);
      totalAllocated := Wrap(totalAllocated + size);
      currentUsage := Wrap(currentUsage + blockSize);
      s := t;
    }

    /** Forward merge. */
    method AbsorbNext(header: Header, ghost i: nat, ghost c: Chain)
      requires mem.Length == REGION && Linked(c) && i < |nodes| && header == nodes[i]
      modifies this`nodes, repr
      ensures Linked(JoinNext(c, i)) && i < |nodes| && nodes[i] == header
    {
      assert nodes[i].next == Neighbour(nodes, i + 1);
      if header.next != null && header.next.isFree {
        MergeNext(header, i, c);
      }
    }

    /** Backward merge: the previous block absorbs this one. */
    method AbsorbPrev(header: Header, ghost i: nat, ghost c: Chain)
      requires mem.Length == REGION && Linked(c) && i < |nodes| && header == nodes[i]
      modifies this`nodes, repr
      ensures Linked(JoinPrev(c, i))
    {
      assert nodes[i].prev == Neighbour(nodes, i - 1);
      if header.prev != null && header.prev.isFree {
        MergeNext(header.prev, i - 1, c);
      }
    }

    /** Mark the block free and merge it with its free neighbours. */
    method MergeAround(header: Header, ghost i: nat)
      requires mem.Length == REGION && Linked(s.chain) && i < |nodes| && header == nodes[i]
      modifies this`nodes, repr
      ensures Linked(Give(s.chain, i))
    {
      SetFree(header, true, i, s.chain);
      AbsorbBoth(header, i, s.chain[i := s.chain[i].(free := true)]);
    }

    /** Forward merge, then backward merge. */
    method AbsorbBoth(header: Header, ghost i: nat, ghost c: Chain)
      requires mem.Length == REGION && Linked(c) && i < |nodes| && header == nodes[i]
      modifies this`nodes, repr
      ensures Linked(JoinPrev(JoinNext(c, i), i))
    {
      AbsorbNext(header, i, c);
      AbsorbPrev(header, i, JoinNext(c, i));
    }

    /** Rewrite the bytes of the headers a merge touches: the block's own and its neighbours'. */
    method StoreAround(header: Header, ghost i: nat)
      requires mem.Length == REGION && Linked(s.chain) && WellFormed(s.chain, start)
      requires i < |nodes| && header == nodes[i]
      modifies mem
      ensures Linked(s.chain) && PayloadsKept(s.chain)
    {
      StoreBlock(header, i);
      assert nodes[i].prev == Neighbour(nodes, i - 1);
      if header.prev != null {
        StoreBlock(header.prev, i - 1);
      }
      StoreBehind(header, i);
    }

    /** Rewrite the bytes of the two headers behind block `i`. */
    method StoreBehind(header: Header, ghost i: nat)
      requires mem.Length == REGION && Linked(s.chain) && WellFormed(s.chain, start)
      requires i < |nodes| && header == nodes[i]
      modifies mem
      ensures Linked(s.chain) && PayloadsKept(s.chain)
    {
      assert nodes[i].next == Neighbour(nodes, i + 1);
      if header.next != null {
        assert nodes[i + 1].next == Neighbour(nodes, i + 2);
        if header.next.next != null {
          StoreBlock(header.next.next, i + 2);
        }
        StoreBlock(header.next, i + 1);
      }
    }

    /** kfree; `ptr` is NULL or the payload address of a block, which may be free already. */
    method Kfree(ptr: nat)
      requires Valid() && (ptr == 0 || Known(s.chain, ptr))
      modifies this, repr, mem
      ensures Valid() && s == FreeStep(old(s), ptr)
      ensures if ptr != 0 && old(Live(s.chain, ptr)) then Lost(old(s), s, ptr) else s == old(s)
      ensures repr == old(repr)
      ensures PayloadsKept(old(s.chain))
    {
      if ptr == 0 { return; }
      var header := overlay[ptr - HEADER];
      ghost var i := BlockOf(s.chain, ptr);
      assert nodes[i].addr in overlay && overlay[nodes[i].addr] == nodes[i];
      if header.isFree { return; }
      FreeKeeps(s, start, ptr);
      FreeFields(s, ptr);
      FreeResult(s, start, ptr);
      ReleaseBlock(header, i, FreeStep(s, ptr));
    }

    /** The locked part of kfree: release the used block `header`. */
    method ReleaseBlock(header: Header, ghost i: nat, ghost t: Heap)
      requires mem.Length == REGION && Linked(s.chain) && WellFormed(s.chain, start) && Counted()
      requires i < |nodes| && header == nodes[i]
      requires t.chain == Give(s.chain, i) && t.totalAllocated == s.totalAllocated
      requires t.totalFreed == s.totalFreed + s.chain[i].size - HEADER && t.usage == s.usage - s.chain[i].size
      modifies this, repr, mem
      ensures Linked(t.chain) && Counted() && s == t
      ensures repr == old(repr)
      ensures PayloadsKept(old(s.chain))
    {
      var size := header.size;
      StoreAround(header, i);
      MergeAround(header, i);
      Unaccount(t, size);
    }

    /** The statistics after a block of `blockSize` bytes is freed. */
    method Unaccount(ghost t: Heap, blockSize: int)
      requires Counted() && Linked(t.chain)
      requires t.totalAllocated == s.totalAllocated && t.totalFreed == s.totalFreed + blockSize - HEADER
      requires t.usage == s.usage - blockSize
      modifies this`s, this`totalFreed, this`currentUsage
      ensures s == t && Counted() && Linked(t.chain)
    {
      WrapAdd(s.totalFreed, blockSize - HEADER);
      WrapAdd(s.usage, -blockSize);
      totalFreed := Wrap(totalFreed + (blockSize - HEADER));
      currentUsage := Wrap(currentUsage - blockSize);
      s := t;
    }

    /** kcalloc.  The product is one of 32-bit words, so what is allocated and cleared is all of it
        exactly if it fits. */
    method Kcalloc(num: nat, size: nat) returns (ptr: nat)
      requires Valid() && num < 0x1_0000_0000 && size < 0x1_0000_0000
      modifies this, repr, mem
      ensures Valid() && s == MallocStep(old(s), Wrap(num * size)) && ptr == MallocPtr(old(s), Wrap(num * size))
      ensures fresh(repr - old(repr))
      ensures PayloadsKept(old(s.chain))
      ensures ptr != 0 ==> start <= ptr && ptr + Wrap(num * size) <= start + REGION
      ensures ptr != 0 ==> forall k | 0 <= k < REGION && ptr <= start + k < ptr + Wrap(num * size) :: mem[k] == 0
    {
      ptr := Zeroed(Wrap(num * size));
    }

    /** Allocate and clear. */
    method Zeroed(total: nat) returns (ptr: nat)
      requires Valid() && total < 0x1_0000_0000
      modifies this, repr, mem
      ensures Valid() && s == MallocStep(old(s), total) && ptr == MallocPtr(old(s), total)
      ensures fresh(repr - old(repr))
      ensures PayloadsKept(old(s.chain))
      ensures ptr != 0 ==> start <= ptr && ptr + total <= start + REGION
      ensures ptr != 0 ==> forall k | 0 <= k < REGION && ptr <= start + k < ptr + total :: mem[k] == 0
    {
      ptr := Kmalloc(total);
      if ptr != 0 {
        Clear(ptr, total, s.chain);
      }
    }

    /** memcpy of `n` bytes between ranges that do not overlap. */
    method Copy(dst: nat, src: nat, n: nat)
      requires mem.Length == REGION && start <= dst && dst + n <= start + REGION
      requires start <= src && src + n <= start + REGION && (dst + n <= src || src + n <= dst)
      modifies mem
      ensures forall k | 0 <= k < REGION :: mem[k] ==
                if dst <= start + k < dst + n then old(mem[src - dst + k]) else old(mem[k])
    {
      for i := 0 to n
        invariant forall k | 0 <= k < REGION :: mem[k] ==
                    if dst <= start + k < dst + i then old(mem[src - dst + k]) else old(mem[k])
      {
        mem[dst - start + i] := mem[src - start + i];
      }
    }

    /** The bytes of the live payload at `ptr`. */
    ghost predicate PayloadOf(c: Chain, ptr: nat, x: nat)
      requires Live(c, ptr)
    {
      ptr <= x < End(c[BlockOf(c, ptr)])
    }

    /** krealloc of NULL or a live payload. */
    method Krealloc(ptr: nat, size: nat) returns (r: nat)
      requires Valid() && (ptr == 0 || Live(s.chain, ptr))
      modifies this, repr, mem
      ensures Valid() && s == ReallocStep(old(s), ptr, size)
      ensures fresh(repr - old(repr))
      ensures ptr == 0 ==> r == MallocPtr(old(s), size) && Gained(old(s), s, r)
      ensures ptr != 0 && size == 0 ==> r == 0 && Lost(old(s), s, ptr)
      // large enough already: the same pointer, nothing changes
      ensures ptr != 0 && 0 < size <= old(s.chain[BlockOf(s.chain, ptr)].size) - HEADER ==>
                r == ptr && mem[..] == old(mem[..])
      // grown: the old usable bytes, then zeros; failed: NULL, and the old block stays live and as it was
      ensures ptr != 0 && size > old(s.chain[BlockOf(s.chain, ptr)].size) - HEADER ==>
                && r == MallocPtr(old(s), size)
                && (r == 0 ==> s == old(s) && mem[..] == old(mem[..]))
                && (r != 0 ==>
                    && start <= r && r + size <= start + REGION && Swapped(old(s), s, ptr, r)
                    && Grown(old(mem[..]), ptr, old(s.chain[BlockOf(s.chain, ptr)].size) - HEADER, r, size))
      // every other payload keeps its bytes
      ensures forall k | 0 <= k < REGION && InPayload(old(s.chain), start + k)
                && (ptr == 0 || !PayloadOf(old(s.chain), ptr, start + k)) :: mem[k] == old(mem[k])
    {
      if ptr == 0 {
        MallocResult(s, start, size);
        r := Kmalloc(size);
        return;
      }
      if size == 0 {
        Kfree(ptr);
        return 0;
      }
      r := Resize(ptr, size);
    }

    /** krealloc of a live payload to a positive size. */
    method Resize(ptr: nat, size: nat) returns (r: nat)
      requires Valid() && Live(s.chain, ptr) && ptr != 0 && size > 0
      modifies this, repr, mem
      ensures Valid() && s == ReallocStep(old(s), ptr, size)
      ensures fresh(repr - old(repr))
      ensures size <= old(s.chain[BlockOf(s.chain, ptr)].size) - HEADER ==> r == ptr && mem[..] == old(mem[..])
      ensures size > old(s.chain[BlockOf(s.chain, ptr)].size) - HEADER ==>
                && r == MallocPtr(old(s), size)
                && (r == 0 ==> s == old(s) && mem[..] == old(mem[..]))
                && (r != 0 ==>
                    && start <= r && r + size <= start + REGION && Swapped(old(s), s, ptr, r)
                    && Grown(old(mem[..]), ptr, old(s.chain[BlockOf(s.chain, ptr)].size) - HEADER, r, size))
      ensures Kept(old(mem[..]), old(s.chain))
    {
      var oldSize := UsableSize(ptr);
      if size <= oldSize { return ptr; }
      ReallocResult(s, start, ptr, size);
      r := Grow(ptr, size, oldSize);
    }

    /** The bytes of the block at `ptr` behind its header. */
    method UsableSize(ptr: nat) returns (n: int)
      requires Linked(s.chain) && Known(s.chain, ptr)
      ensures n == s.chain[BlockOf(s.chain, ptr)].size - HEADER
    {
      var header := overlay[ptr - HEADER];
      ghost var i := BlockOf(s.chain, ptr);
      assert nodes[i].addr in overlay && overlay[nodes[i].addr] == nodes[i];
      return header.size - HEADER;
    }

    /** The bytes `before` of the region, where they belong to payloads of `c`, are still there. */
    ghost predicate Kept(before: seq<bv8>, c: Chain)
      requires mem.Length == REGION == |before|
      reads mem
    {
      forall k | 0 <= k < REGION && InPayload(c, start + k) :: mem[k] == before[k]
    }

    /** The payload at `r` begins with the `n` bytes that `before` has at `ptr` and is zero from there to `size`. */
    ghost predicate Grown(before: seq<bv8>, ptr: nat, n: nat, r: nat, size: nat)
      requires mem.Length == REGION == |before|
      reads mem
    {
      && (forall k | 0 <= k < REGION && r <= start + k < r + n && 0 <= ptr - r + k < REGION ::
            mem[k] == before[ptr - r + k])
      && (forall k | 0 <= k < REGION && r + n <= start + k < r + size :: mem[k] == 0)
    }

    /** A range that meets no payload of `c` does not overlap the payload at `ptr`. */
    lemma ApartFromPayload(c: Chain, ptr: nat, r: nat, n: nat)
      requires Live(c, ptr) && n == c[BlockOf(c, ptr)].size - HEADER
      requires forall x: nat | r <= x < r + n :: !InPayload(c, x)
      ensures r + n <= ptr || ptr + n <= r
    {
      var i := BlockOf(c, ptr);
      if r + n > ptr && ptr + n > r {
        var x := if r <= ptr then ptr else r;
        assert 0 <= i < |c| && !c[i].free && c[i].addr + HEADER <= x < End(c[i]);
        assert InPayload(c, x);
      }
    }

    /** Copy the `n` bytes of the payload at `ptr`, live in `c`, to the grant at `r`, where `c` has none. */
    method Move(ptr: nat, r: nat, n: nat, size: nat, ghost c: Chain, ghost before: seq<bv8>)
      requires mem.Length == REGION == |before| && WellFormed(c, start)
      requires Live(c, ptr) && n == c[BlockOf(c, ptr)].size - HEADER && n < size
      requires start <= r && r + size <= start + REGION
      requires forall x: nat | r <= x < r + size :: !InPayload(c, x)
      requires Kept(before, c)
      requires forall k | 0 <= k < REGION && r <= start + k < r + size :: mem[k] == 0
      modifies mem
      ensures Kept(before, c) && Grown(before, ptr, n, r, size)
    {
      InRegion(c, start, start + REGION, BlockOf(c, ptr));
      ApartFromPayload(c, ptr, r, n);
      assert forall x: nat | ptr <= x < ptr + n :: InPayload(c, x);
      Copy(r, ptr, n);
    }

    /** Free the old payload; the bytes of `c` and of the new payload stay. */
    method Discard(ptr: nat, r: nat, n: nat, size: nat, ghost c: Chain, ghost before: seq<bv8>)
      requires Valid() && Live(s.chain, ptr) && |before| == REGION && 0 <= n < size
      requires forall x: nat | InPayload(c, x) || r <= x < r + size :: InPayload(s.chain, x)
      requires Kept(before, c) && Grown(before, ptr, n, r, size)
      modifies this, repr, mem
      ensures Valid() && s == FreeStep(old(s), ptr)
      ensures repr == old(repr)
      ensures Kept(before, c) && Grown(before, ptr, n, r, size)
    {
      ghost var d := s.chain;
      Kfree(ptr);
      forall k | 0 <= k < REGION && (InPayload(c, start + k) || r <= start + k < r + size)
        ensures mem[k] == old(mem[k])
      {
        assert InPayload(d, start + k);
      }
    }

    /** Copy the old payload to the grant and free it. */
    method Replace(ptr: nat, r: nat, n: nat, size: nat, ghost c: Chain, ghost before: seq<bv8>, ghost t: Heap)
      requires Valid() && Live(s.chain, ptr) && |before| == REGION && WellFormed(c, start)
      requires Live(c, ptr) && n == c[BlockOf(c, ptr)].size - HEADER && n < size
      requires start <= r && r + size <= start + REGION
      requires forall x: nat | r <= x < r + size :: !InPayload(c, x)
      requires forall x: nat | InPayload(c, x) || r <= x < r + size :: InPayload(s.chain, x)
      requires Kept(before, c) && forall k | 0 <= k < REGION && r <= start + k < r + size :: mem[k] == 0
      requires t == FreeStep(s, ptr)
      modifies this, repr, mem
      ensures Valid() && s == t
      ensures repr == old(repr)
      ensures Kept(before, c) && Grown(before, ptr, n, r, size)
    {
      Move(ptr, r, n, size, c, before);
      Discard(ptr, r, n, size, c, before);
    }

    /** The new block for the payload at `ptr`, which stays where and as it is. */
    method Obtain(ptr: nat, size: nat) returns (r: nat)
      requires Valid() && Live(s.chain, ptr)
      modifies this, repr, mem
      ensures Valid() && s == MallocStep(old(s), size) && r == MallocPtr(old(s), size)
      ensures fresh(repr - old(repr))
      ensures Kept(old(mem[..]), old(s.chain)) && Live(s.chain, ptr) && WellFormed(old(s.chain), start)
      ensures r == 0 ==> mem[..] == old(mem[..])
      ensures r != 0 ==> start <= r && r + size <= start + REGION
      ensures r != 0 ==> forall x: nat | r <= x < r + size :: !InPayload(old(s.chain), x)
      ensures r != 0 ==> forall x: nat | InPayload(old(s.chain), x) || r <= x < r + size :: InPayload(s.chain, x)
      ensures r != 0 ==> forall k | 0 <= k < REGION && r <= start + k < r + size :: mem[k] == 0
    {
      LiveStays(s, start, size, ptr);
      PayloadsStay(size);
      r := Kmalloc(size);
    }

    /** The growing case of krealloc. */
    method Grow(ptr: nat, size: nat, oldSize: nat) returns (r: nat)
      requires Valid() && Live(s.chain, ptr) && size > oldSize
      requires oldSize == s.chain[BlockOf(s.chain, ptr)].size - HEADER
      modifies this, repr, mem
      ensures fresh(repr - old(repr))
      ensures Valid() && s == ReallocStep(old(s), ptr, size) && r == MallocPtr(old(s), size)
      ensures r == 0 ==> s == old(s) && mem[..] == old(mem[..])
      ensures r != 0 ==> start <= r && r + size <= start + REGION
      ensures r != 0 ==> Grown(old(mem[..]), ptr, oldSize, r, size)
      ensures Kept(old(mem[..]), old(s.chain))
    {
      ghost var c, before, t := s.chain, mem[..], ReallocStep(s, ptr, size);
      GrowsTo(ptr, size);
      r := Obtain(ptr, size);
      if r != 0 {
        Replace(ptr, r, oldSize, size, c, before, t);
      }
    }

    /** What the growing case leaves: nothing new, or the new block alone. */
    lemma GrowsTo(ptr: nat, size: nat)
      requires Inv(s, start) && Live(s.chain, ptr) && size > s.chain[BlockOf(s.chain, ptr)].size - HEADER
      ensures var t, m := ReallocStep(s, ptr, size), MallocStep(s, size);
              if MallocPtr(s, size) == 0 then t == m == s else Live(m.chain, ptr) && t == FreeStep(m, ptr)
    {
      LiveStays(s, start, size, ptr);
    }

    /** Allocation leaves payload bytes payload bytes. */
    lemma PayloadsStay(size: nat)
      requires Inv(s, start)
      ensures forall x: nat | InPayload(s.chain, x) :: InPayload(MallocStep(s, size).chain, x)
    {
      var d := MallocStep(s, size).chain;
      MallocResult(s, start, size);
      forall x: nat | InPayload(s.chain, x)
        ensures InPayload(d, x)
      {
        var i :| 0 <= i < |s.chain| && !s.chain[i].free && s.chain[i].addr + HEADER <= x < End(s.chain[i]);
        assert s.chain[i] in Used(d);
        var j :| 0 <= j < |d| && d[j] == s.chain[i];
        assert 0 <= j < |d| && !d[j].free && d[j].addr + HEADER <= x < End(d[j]);
      }
    }

    /** The block totals of kmalloc_stats. */
    method Stats() returns (freeBlocks: nat, usedBlocks: nat, totalFree: nat, totalUsed: nat)
      requires Valid()
      ensures totalUsed == s.usage && totalFree + totalUsed == REGION
      ensures usedBlocks == UsedCount(s.chain) && freeBlocks + usedBlocks == |s.chain|
    {
      freeBlocks, usedBlocks, totalFree, totalUsed := 0, 0, 0, 0;
      var current: Header? := head;
      ghost var n, c := 0, s.chain;
      assert c[..0] == [];
      while current != null
        invariant 0 <= n <= |nodes| && current == Neighbour(nodes, n)
        invariant totalUsed == UsedBytes(c[..n]) && usedBlocks == UsedCount(c[..n])
        invariant freeBlocks + usedBlocks == n
        invariant totalFree + totalUsed == (if n < |c| then c[n].addr else start + REGION) - start
        decreases |nodes| - n
      {
        assert c[..n + 1] == c[..n] + [c[n]];
        UsedConcat(c[..n], [c[n]]);
        UsedOne(c[n]);
        if n + 1 < |c| { assert Meets(c, n); }
        if current.isFree {
          freeBlocks, totalFree := freeBlocks + 1, totalFree + current.size;
        } else {
          usedBlocks, totalUsed := usedBlocks + 1, totalUsed + current.size;
        }
        assert nodes[n].next == Neighbour(nodes, n + 1);
        current := current.next;
        n := n + 1;
      }
      assert c[..n] == c;
    }
  }
}
