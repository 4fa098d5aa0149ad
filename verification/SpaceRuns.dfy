/** Address spaces over runs of processes: as long as a process has not exited, nothing
    that happens to the others changes what its addresses mean. */
module SpaceRuns {
  import opened Paging
  import opened Sequences
  import opened PageTables
  import opened ProcessRuns

  /** The address space of a new process: its pages are `ps`, and the memory is changed there and in its
      directory only, in the way `PageTables` describes. */
  ghost predicate HasNewSpace(p: Proc, rest: set<nat>, ps: seq<nat>, before: map<nat, Content>,
                              after: map<nat, Content>, kernel: seq<nat>, binary: nat, size: nat)
  {
    var dir := DirectoryPage(p);
    && |ps| == 4 && |kernel| == 1024 && rest == Elements(ps) && Distinct(dir, ps)
    && after == NewSpace(before, kernel, dir, binary, size, ps)
  }

  /** The memories that go with a run: a creation writes only pages that were free, start and exit none. */
  ghost predicate Memories(ms: seq<map<nat, Content>>, ws: seq<World>, ops: seq<Op>)
    requires |ws| == |ops| + 1
  {
    |ms| == |ws| && forall k | 0 <= k < |ops| :: Written(ms, ws, ops, k)
  }

  ghost predicate Written(ms: seq<map<nat, Content>>, ws: seq<World>, ops: seq<Op>, k: nat)
    requires |ms| == |ws| == |ops| + 1 && k < |ops|
  {
    if ops[k].Create? then Same(ms[k], ms[k + 1], ws[k].free) else ms[k + 1] == ms[k]
  }

  /** A process that has not exited keeps its pages through a step. */
  lemma StepOwned(w: World, t: World, op: Op, i: nat)
    requires |w.procs| == |w.rest| == MAX_PROCESSES && w.current < MAX_PROCESSES && i < MAX_PROCESSES
    requires Step(w, t, op) && w.procs[i].state != Unused
    requires |t.procs| == |t.rest| == MAX_PROCESSES && t.procs[i].state != Terminated
    ensures Owned(t, i) == Owned(w, i)
  {
    match op
    case Create(found) => CreateOthers(w, t, found, i);
    case Start(pid) =>
      StartOthers(w, pid, i);
    case Exit =>
      assert t.rest[i] == w.rest[i] && t.procs[i] == w.procs[i];
  }

  lemma StartOthers(w: World, pid: nat, i: nat)
    requires i < |w.procs| == |w.rest|
    ensures var t := StartStep(w, pid); |t.procs| == |w.procs| && t.rest == w.rest && Owned(t, i) == Owned(w, i)
  {
  }

  lemma CreateOthers(w: World, t: World, found: bool, i: nat)
    requires |w.procs| == |w.rest| == |t.procs| == |t.rest| && i < |w.procs| && w.procs[i].state != Unused
    requires exists pid :: CreateStep(w, t, found, pid)
    ensures t.procs[i] == w.procs[i] && t.rest[i] == w.rest[i]
  {
  }

  lemma OwnedIsNotFree(w: World, others: map<nat, nat>, i: nat)
    requires Inv(w, others) && i < MAX_PROCESSES
    ensures Owned(w, i) !! w.free
  {
    assert Accounted(w, others, i);
  }

  ghost predicate AgreeOn(m: map<nat, Content>, m': map<nat, Content>, pages: set<nat>)
  {
    forall p | p in pages :: ContentOf(m, p) == ContentOf(m', p)
  }

  lemma RunSizes(ws: seq<World>, ops: seq<Op>, others: map<nat, nat>, k: nat)
    requires Run(ws, ops, others) && k < |ws|
    ensures |ws[k].procs| == |ws[k].rest| == MAX_PROCESSES
  {
    RunKeeps(ws, ops, others, k);
  }

  /** From any moment to any later one a process that has not exited keeps its pages, and they keep their contents. */
  lemma {:induction false} RunOwned(ws: seq<World>, ops: seq<Op>, others: map<nat, nat>, ms: seq<map<nat, Content>>,
                                    j: nat, k: nat, i: nat)
    requires Run(ws, ops, others) && Memories(ms, ws, ops) && j <= k < |ws| && i < MAX_PROCESSES
    ensures |ws[j].procs| == |ws[j].rest| == |ws[k].procs| == |ws[k].rest| == MAX_PROCESSES
    ensures ws[j].procs[i].state != Unused && ws[k].procs[i].state != Terminated ==>
              Owned(ws[k], i) == Owned(ws[j], i) && AgreeOn(ms[j], ms[k], Owned(ws[j], i))
    decreases k
  {
    RunSizes(ws, ops, others, j);
    RunSizes(ws, ops, others, k);
    if j < k {
      RunOwned(ws, ops, others, ms, j, k - 1, i);
      RunMonotone(ws, ops, others, j, k - 1, i);
      RunMonotone(ws, ops, others, k - 1, k, i);
      if ws[j].procs[i].state != Unused && ws[k].procs[i].state != Terminated {
        LinkOwned(ws, ops, others, ms, k - 1, i);
      }
    }
  }

  lemma LinkOwned(ws: seq<World>, ops: seq<Op>, others: map<nat, nat>, ms: seq<map<nat, Content>>, k: nat, i: nat)
    requires Run(ws, ops, others) && Memories(ms, ws, ops) && k < |ops| && i < MAX_PROCESSES
    requires |ws[k].procs| == |ws[k + 1].procs| == MAX_PROCESSES
    requires ws[k].procs[i].state != Unused && ws[k + 1].procs[i].state != Terminated
    ensures |ws[k].rest| == |ws[k + 1].rest| == MAX_PROCESSES
    ensures Owned(ws[k + 1], i) == Owned(ws[k], i) && AgreeOn(ms[k], ms[k + 1], Owned(ws[k], i))
  {
    RunKeeps(ws, ops, others, k);
    RunKeeps(ws, ops, others, k + 1);
    assert Linked(ws, ops, k) && Written(ms, ws, ops, k);
    StepOwned(ws[k], ws[k + 1], ops[k], i);
    OwnedIsNotFree(ws[k], others, i);
  }

  /** A page walk that stays in `pages` finds the same in every memory that agrees on them. */
  lemma WalkAgrees(m: map<nat, Content>, m': map<nat, Content>, pages: set<nat>, dir: nat, va: nat)
    requires AgreeOn(m, m', pages) && dir in pages && va < 0x1_0000_0000 && IsTable(ContentOf(m, dir))
    requires var pde := ContentOf(m, dir).entries[va / 0x40_0000]; pde % 2 == 1 ==> pde / PAGE_SIZE in pages
    ensures Walk(m', dir, va) == Walk(m, dir, va)
  {
  }

  /** The walk of a user address in a new address space stays in the pages of the space. */
  lemma WalkStays(before: map<nat, Content>, kernel: seq<nat>, dir: nat, binary: nat, size: nat, ps: seq<nat>, va: nat)
    requires |kernel| == 1024 && |ps| == 4 && Distinct(dir, ps) && binary != dir && binary !in ps
    requires va < 0x1_0000_0000 && (va / 0x40_0000 < 768 || va / 0x40_0000 == 0x3FE)
    ensures var d := ContentOf(NewSpace(before, kernel, dir, binary, size, ps), dir);
            && IsTable(d)
            && var pde := d.entries[va / 0x40_0000]; pde % 2 == 1 ==> pde / PAGE_SIZE in Elements(ps)
  {
    NewSpacePages(before, kernel, dir, binary, size, ps);
    EntryBits(ps[2]);
    EntryBits(ps[3]);
  }

  /** So, from its creation until it exits, every user address of a process means what it meant at the
      beginning: its first page is the code, one page is the stack, and nothing else is mapped.  And the
      code page begins, until then, with the bytes of the program. */
  lemma RunTranslates(ws: seq<World>, ops: seq<Op>, others: map<nat, nat>, ms: seq<map<nat, Content>>,
                      j: nat, k: nat, i: nat, ps: seq<nat>, before: map<nat, Content>, kernel: seq<nat>,
                      binary: nat, size: nat, va: nat)
    requires Run(ws, ops, others) && Memories(ms, ws, ops) && j <= k < |ws| && i < MAX_PROCESSES
    requires |ws[j].procs| == |ws[j].rest| == |ws[k].procs| == MAX_PROCESSES
    requires ws[j].procs[i].state == Ready && ws[k].procs[i].state != Terminated
    requires HasNewSpace(ws[j].procs[i], ws[j].rest[i], ps, before, ms[j], kernel, binary, size)
    requires binary != DirectoryPage(ws[j].procs[i]) && binary !in ps
    requires va < 0x1_0000_0000 && (va / 0x40_0000 < 768 || va / 0x40_0000 == 0x3FE)
    ensures Walk(ms[k], DirectoryPage(ws[j].procs[i]), va)
            == if va / PAGE_SIZE == 0 then Mapped(ps[0])
               else if va / PAGE_SIZE == 0xFFBFF then Mapped(ps[1])
               else Unmapped
    ensures Copied(ContentOf(before, binary), ContentOf(ms[k], ps[0]), size)
  {
    var dir := DirectoryPage(ws[j].procs[i]);
    RunOwned(ws, ops, others, ms, j, k, i);
    NewSpacePages(before, kernel, dir, binary, size, ps);
    assert ps[0] in Owned(ws[j], i);
    NewSpaceWalk(before, kernel, dir, binary, size, ps, va);
    WalkStays(before, kernel, dir, binary, size, ps, va);
    WalkAgrees(ms[j], ms[k], Owned(ws[j], i), dir, va);
  }

  /** A new process finds its program at address 0: the page there begins with the program's bytes, for
      every program that is not itself in a page that was free. */
  lemma CreatedCode(w: World, t: World, found: bool, pid: nat, ps: seq<nat>, before: map<nat, Content>,
                    after: map<nat, Content>, kernel: seq<nat>, binary: nat, size: nat)
    requires |w.procs| == |w.rest| && CreateStep(w, t, found, pid) && pid != 0 && binary !in w.free
    requires var slot := FirstUnused(w.procs, 0);
             && slot < |w.procs| == |t.procs| == |t.rest|
             && HasNewSpace(t.procs[slot], t.rest[slot], ps, before, after, kernel, binary, size)
    ensures var dir := DirectoryPage(t.procs[FirstUnused(w.procs, 0)]);
            Walk(after, dir, 0) == Mapped(ps[0]) && Copied(ContentOf(before, binary), ContentOf(after, ps[0]), size)
  {
    var slot := FirstUnused(w.procs, 0);
    var dir: nat, rest: set<nat>, kstack: nat :| SixPages(w, dir, rest, kstack)
                                                  && t == CreatedWorld(w, slot, dir, rest, kstack);
    NewDirectory(t.procs[slot], dir);
    assert forall p | p in ps :: p in Elements(ps);
    NewSpacePages(before, kernel, dir, binary, size, ps);
    NewSpaceWalk(before, kernel, dir, binary, size, ps, 0);
  }

  lemma NewDirectory(p: Proc, dir: nat)
    requires p.pageDirectory == dir * PAGE_SIZE
    ensures DirectoryPage(p) == dir
  {
  }
}
