/** What the pages of a user address space hold, and which physical page the
    processor finds behind a virtual address. */
module PageTables {
  import opened Paging

  /** What a physical page holds: a table of 1024 words, the beginning of a program image, or anything. */
  datatype Content = Unknown | Table(entries: seq<nat>) | Image(bytes: seq<bv8>)

  /** What a page walk finds; nothing is known of it where a table is not known. */
  datatype Frame = Unmapped | Mapped(page: nat) | NotKnown

  function Zeros(): (z: seq<nat>)
    ensures |z| == 1024 && forall i | 0 <= i < 1024 :: z[i] == 0
  {
    seq(1024, i => 0)
  }

  /** The entries of a new user directory: the upper 256 are the kernel's. */
  function UserDirectory(kernel: seq<nat>): (e: seq<nat>)
    requires |kernel| == 1024
    ensures |e| == 1024 && forall i | 0 <= i < 1024 :: e[i] == if i < 768 then 0 else kernel[i]
  {
    seq(1024, i requires 0 <= i < 1024 => if i < 768 then 0 else kernel[i])
  }

  function ContentOf(memory: map<nat, Content>, page: nat): Content
  {
    if page in memory then memory[page] else Unknown
  }

  function BytesOf(c: Content, n: nat): seq<bv8>
  {
    if c.Image? && n <= |c.bytes| then c.bytes[..n] else []
  }

  /** Where `src` is known to begin with `size` bytes of a program, `c` begins with the same bytes. */
  ghost predicate Copied(src: Content, c: Content, size: nat)
  {
    src.Image? && size <= |src.bytes| ==>
      c.Image? && size <= |c.bytes| && forall i | 0 <= i < size :: c.bytes[i] == src.bytes[i]
  }

  predicate IsTable(c: Content)
  {
    c.Table? && |c.entries| == 1024
  }

  /** An entry for a page, with the bits present, writable and user set. */
  function UserEntry(page: nat): nat
  {
    page * PAGE_SIZE + 7
  }

  /** The two-level walk of 32-bit paging from the directory in page `dir`. */
  function Walk(memory: map<nat, Content>, dir: nat, va: nat): Frame
    requires va < 0x1_0000_0000
  {
    if !IsTable(ContentOf(memory, dir)) then NotKnown
    else
      var pde := ContentOf(memory, dir).entries[va / 0x40_0000];
      if pde % 2 == 0 then Unmapped
      else if !IsTable(ContentOf(memory, pde / PAGE_SIZE)) then NotKnown
      else
        var pte := ContentOf(memory, pde / PAGE_SIZE).entries[va / PAGE_SIZE % 1024];
        if pte % 2 == 0 then Unmapped else Mapped(pte / PAGE_SIZE)
  }

  /** The writes of `vmm_load_user_program` to the page directory and the four new pages `ps`: the
      code, the stack and their two tables. */
  function Populated(memory: map<nat, Content>, dir: nat, binary: nat, size: nat, ps: seq<nat>): map<nat, Content>
    requires |ps| == 4 && IsTable(ContentOf(memory, dir))
  {
    var m1 := memory[dir := Table(ContentOf(memory, dir).entries[0 := UserEntry(ps[2])])];
    var m2 := m1[ps[2] := Table(Zeros()[0 := UserEntry(ps[0])])];
    var m3 := m2[dir := Table(ContentOf(m2, dir).entries[0x3FE := UserEntry(ps[3])])];
    var m4 := m3[ps[3] := Table(Zeros()[0x3FF := UserEntry(ps[1])])];
    m4[ps[0] := Image(BytesOf(ContentOf(m4, binary), size))]
  }

  /** A new address space over the memory `before`. */
  function NewSpace(before: map<nat, Content>, kernel: seq<nat>, dir: nat, binary: nat, size: nat,
      ps: seq<nat>): map<nat, Content>
    requires |kernel| == 1024 && |ps| == 4
  {
    Populated(before[dir := Table(UserDirectory(kernel))], dir, binary, size, ps)
  }

  ghost predicate Distinct(dir: nat, ps: seq<nat>)
  {
    && dir !in ps
    && forall i, j | 0 <= i < j < |ps| :: ps[i] != ps[j]
  }

  lemma NewSpaceFrame(before: map<nat, Content>, kernel: seq<nat>, dir: nat, binary: nat, size: nat, ps: seq<nat>)
    requires |kernel| == 1024 && |ps| == 4
    ensures Same(before, NewSpace(before, kernel, dir, binary, size, ps), {dir, ps[0], ps[1], ps[2], ps[3]})
  {
  }

  /** Outside the pages `changed`, the two memories agree. */
  ghost predicate Same(m: map<nat, Content>, m': map<nat, Content>, changed: set<nat>)
  {
    forall p: nat | p !in changed :: ContentOf(m, p) == ContentOf(m', p)
  }

  /** What each page of a new address space holds; every other page is as before. */
  lemma NewSpacePages(before: map<nat, Content>, kernel: seq<nat>, dir: nat, binary: nat, size: nat, ps: seq<nat>)
    requires |kernel| == 1024 && |ps| == 4 && Distinct(dir, ps) && binary != dir && binary !in ps
    ensures var m := NewSpace(before, kernel, dir, binary, size, ps);
            && ContentOf(m, dir) == Table(UserDirectory(kernel)[0 := UserEntry(ps[2])][0x3FE := UserEntry(ps[3])])
            && ContentOf(m, ps[2]) == Table(Zeros()[0 := UserEntry(ps[0])])
            && ContentOf(m, ps[3]) == Table(Zeros()[0x3FF := UserEntry(ps[1])])
            && Copied(ContentOf(before, binary), ContentOf(m, ps[0]), size)
            && forall p | p != dir && p !in ps :: ContentOf(m, p) == ContentOf(before, p)
  {
    assert ps[0] != ps[2] && ps[0] != ps[3] && ps[2] != ps[3] && dir != ps[0] && dir != ps[2] && dir != ps[3];
  }

  /** The user's part of a new address space, for every virtual address outside the kernel's: the first
      page is the code, one page under directory entry 0x3FE is the stack, and there is nothing else. */
  lemma NewSpaceWalk(before: map<nat, Content>, kernel: seq<nat>, dir: nat, binary: nat, size: nat, ps: seq<nat>,
      va: nat)
    requires |kernel| == 1024 && |ps| == 4 && Distinct(dir, ps) && binary != dir && binary !in ps
    requires va < 0x1_0000_0000 && (va / 0x40_0000 < 768 || va / 0x40_0000 == 0x3FE)
    ensures Walk(NewSpace(before, kernel, dir, binary, size, ps), dir, va)
            == if va / PAGE_SIZE == 0 then Mapped(ps[0])
               else if va / PAGE_SIZE == 0xFFBFF then Mapped(ps[1])
               else Unmapped
  {
    NewSpacePages(before, kernel, dir, binary, size, ps);
    EntryBits(ps[0]);
    EntryBits(ps[1]);
    EntryBits(ps[2]);
    EntryBits(ps[3]);
    Indices(va);
  }

  lemma EntryBits(page: nat)
    ensures UserEntry(page) % 2 == 1 && UserEntry(page) / PAGE_SIZE == page && UserEntry(page) % PAGE_SIZE == 7
  {
  }

  /** The three lowest bits of an entry: it is present, writable and the user's, and nothing else. */
  predicate IsUsers(entry: nat)
  {
    entry % PAGE_SIZE == 7
  }

  /** Both entries that the walk of a mapped user address meets give the user access. */
  lemma NewSpaceAccess(before: map<nat, Content>, kernel: seq<nat>, dir: nat, binary: nat, size: nat, ps: seq<nat>,
      va: nat)
    requires |kernel| == 1024 && |ps| == 4 && Distinct(dir, ps) && binary != dir && binary !in ps
    requires va < 0x1_0000_0000 && (va / PAGE_SIZE == 0 || va / PAGE_SIZE == 0xFFBFF)
    ensures var m := NewSpace(before, kernel, dir, binary, size, ps);
            && IsTable(ContentOf(m, dir)) && IsUsers(ContentOf(m, dir).entries[va / 0x40_0000])
            && var t := ContentOf(m, ContentOf(m, dir).entries[va / 0x40_0000] / PAGE_SIZE);
               IsTable(t) && IsUsers(t.entries[va / PAGE_SIZE % 1024])
  {
    NewSpacePages(before, kernel, dir, binary, size, ps);
    EntryBits(ps[0]);
    EntryBits(ps[1]);
    EntryBits(ps[2]);
    EntryBits(ps[3]);
    Indices(va);
  }

  lemma Indices(va: nat)
    ensures va / PAGE_SIZE == va / 0x40_0000 * 1024 + va / PAGE_SIZE % 1024
  {
  }

  /** The stack is not where the control block says it is: nothing is mapped at USER_STACK_TOP, nor at
      the address the source names for the stack page. */
  lemma StackTopUnmapped(before: map<nat, Content>, kernel: seq<nat>, dir: nat, binary: nat, size: nat, ps: seq<nat>)
    requires |kernel| == 1024 && |ps| == 4 && Distinct(dir, ps) && binary != dir && binary !in ps
    ensures var m := NewSpace(before, kernel, dir, binary, size, ps);
            && Walk(m, dir, 0xBFFF_FFFB) == Walk(m, dir, 0xBFFF_F000) == Unmapped
            && Walk(m, dir, 0xFFBF_F000) == Mapped(ps[1])
  {
    NewSpaceWalk(before, kernel, dir, binary, size, ps, 0xBFFF_FFFB);
    NewSpaceWalk(before, kernel, dir, binary, size, ps, 0xBFFF_F000);
    NewSpaceWalk(before, kernel, dir, binary, size, ps, 0xFFBF_F000);
  }

  /** The kernel's part: every entry is the kernel's own, but for the one that the stack took. */
  lemma NewSpaceKernel(before: map<nat, Content>, kernel: seq<nat>, dir: nat, binary: nat, size: nat, ps: seq<nat>,
      i: nat)
    requires |kernel| == 1024 && |ps| == 4 && Distinct(dir, ps) && binary != dir && binary !in ps && 768 <= i < 1024
    ensures var c := ContentOf(NewSpace(before, kernel, dir, binary, size, ps), dir);
            IsTable(c) && c.entries[i] == if i == 0x3FE then UserEntry(ps[3]) else kernel[i]
  {
    NewSpacePages(before, kernel, dir, binary, size, ps);
  }
}
