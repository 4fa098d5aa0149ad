/** Processes and the pages they own, as a transition system: what holds over every
    run of create, start and exit. */
module ProcessRuns {
  import opened PageLog
  import opened Paging

  const MAX_PROCESSES: nat := 16

  datatype ProcState = Unused | Ready | Running | Blocked | Terminated

  /** The fields of a process control block that this model keeps; the two addresses are in bytes,
      `kernelStack` pointing at the end of its page. */
  datatype Proc = Proc(state: ProcState, pid: nat, pageDirectory: nat, kernelStack: nat)

  function DirectoryPage(p: Proc): nat
  {
    p.pageDirectory / PAGE_SIZE
  }

  function StackPage(p: Proc): nat
  {
    if p.kernelStack < PAGE_SIZE then 0 else (p.kernelStack - PAGE_SIZE) / PAGE_SIZE
  }

  /** `live` and `free` describe the page allocator; `rest[i]` holds the four pages of process `i`
      that only its page tables name; `leaked` the pages no process owns any more or ever did. */
  datatype World = World(live: map<nat, nat>, free: set<nat>, procs: seq<Proc>, rest: seq<set<nat>>,
                         current: int, nextPid: nat, leaked: set<nat>, stackFailures: nat)

  /** The search loop over the table: the first slot from `i` on that is unused. */
  function FirstUnused(procs: seq<Proc>, i: nat): (r: nat)
    requires i <= |procs|
    ensures i <= r <= |procs|
    ensures r < |procs| ==> procs[r].state == Unused
    ensures forall j | i <= j < r :: procs[j].state != Unused
    decreases |procs| - i
  {
    if i == |procs| || procs[i].state == Unused then i else FirstUnused(procs, i + 1)
  }

  function FirstReady(procs: seq<Proc>, pid: nat, i: nat): (r: nat)
    requires i <= |procs|
    ensures i <= r <= |procs|
    ensures r < |procs| ==> procs[r].pid == pid && procs[r].state == Ready
    ensures forall j | i <= j < r :: !(procs[j].pid == pid && procs[j].state == Ready)
    decreases |procs| - i
  {
    if i == |procs| || (procs[i].pid == pid && procs[i].state == Ready) then i else FirstReady(procs, pid, i + 1)
  }

  /** The six pages of a successful creation: free before, live after. */
  ghost predicate SixPages(w: World, dir: nat, rest: set<nat>, kstack: nat)
  {
    var all := rest + {dir, kstack};
    |rest| == 4 && |all| == 6 && all <= w.free && all !! w.live.Keys
  }

  function CreatedWorld(w: World, slot: nat, dir: nat, rest: set<nat>, kstack: nat): World
    requires slot < |w.procs| == |w.rest|
  {
    var all := rest + {dir, kstack};
    w.(live := Adding(w.live, all), free := w.free - all,
       procs := w.procs[slot := Proc(Ready, w.nextPid, dir * PAGE_SIZE, kstack * PAGE_SIZE + PAGE_SIZE)],
       rest := w.rest[slot := rest], nextPid := w.nextPid + 1)
  }

  /** Creation that runs out of pages at the kernel stack: four pages stay allocated. */
  function StackFailedWorld(w: World, lost: set<nat>): World
  {
    w.(live := Adding(w.live, lost), free := w.free - lost, leaked := w.leaked + lost,
       stackFailures := w.stackFailures + 1)
  }

  /** `process_create_from_module`; `found` tells whether the module exists.  The outcome depends on
      nothing but the table and the number of free pages. */
  ghost predicate CreateStep(w: World, t: World, found: bool, pid: nat)
    requires |w.procs| == |w.rest|
  {
    var slot := FirstUnused(w.procs, 0);
    if !found || slot == |w.procs| || |w.free| < 5 then t == w && pid == 0
    else if |w.free| == 5 then
      pid == 0 && exists lost: set<nat> ::
          |lost| == 4 && lost <= w.free && lost !! w.live.Keys && t == StackFailedWorld(w, lost)
    else
      pid == w.nextPid
      && exists dir: nat, rest: set<nat>, kstack: nat :: SixPages(w, dir, rest, kstack)
          && t == CreatedWorld(w, slot, dir, rest, kstack)
  }

  /** `process_start` */
  function StartStep(w: World, pid: nat): World
  {
    var i := FirstReady(w.procs, pid, 0);
    if i == |w.procs| then w
    else w.(procs := w.procs[i := w.procs[i].(state := Running)], current := i)
  }

  /** `process_exit_current`: the directory and the kernel stack are given back, nothing else. */
  function ExitStep(w: World): World
    requires w.current < |w.procs|
  {
    if w.current < 0 then w
    else
      var p := w.procs[w.current];
      var pages := {DirectoryPage(p), StackPage(p)};
      w.(live := w.live - pages, free := w.free + pages,
         procs := w.procs[w.current := p.(state := Terminated)], current := -1)
  }

  datatype Op = Create(found: bool) | Start(pid: nat) | Exit

  ghost predicate Step(w: World, t: World, op: Op)
    requires |w.procs| == |w.rest| && w.current < |w.procs|
  {
    match op
    case Create(found) => exists pid :: CreateStep(w, t, found, pid)
    case Start(pid) => t == StartStep(w, pid)
    case Exit => t == ExitStep(w)
  }

  // ----- ownership

  /** The pages of a control block: all six, or the four that exit does not give back. */
  function PagesOf(p: Proc, rest: set<nat>): set<nat>
  {
    if p.state == Unused then {}
    else if p.state == Terminated then rest
    else rest + {DirectoryPage(p), StackPage(p)}
  }

  function Owned(w: World, i: nat): set<nat>
    requires i < |w.procs| == |w.rest|
  {
    PagesOf(w.procs[i], w.rest[i])
  }

  /** How many pages slot `i` accounts for. */
  function Share(p: Proc): nat
  {
    if p.state == Unused then 0 else if p.state == Terminated then 4 else 6
  }

  function Shares(procs: seq<Proc>): nat
  {
    if procs == [] then 0 else Shares(procs[..|procs| - 1]) + Share(procs[|procs| - 1])
  }

  function UsedSlots(procs: seq<Proc>): nat
  {
    if procs == [] then 0 else UsedSlots(procs[..|procs| - 1]) + (if procs[|procs| - 1].state == Unused then 0 else 1)
  }

  /** The pages of slot `i`: live single pages, not among the others, not leaked. */
  ghost predicate Accounted(w: World, others: map<nat, nat>, i: nat)
    requires i < |w.procs| == |w.rest|
  {
    && |Owned(w, i)| == Share(w.procs[i])
    && (w.procs[i].state != Unused ==> |w.rest[i]| == 4)
    && (forall x | x in Owned(w, i) :: x in w.live && w.live[x] == 0 && x !in others && x !in w.leaked)
  }

  /** No page belongs to two processes. */
  ghost predicate Exclusive(w: World)
    requires |w.procs| == |w.rest|
  {
    forall i, j | 0 <= i < j < |w.procs| :: Owned(w, i) !! Owned(w, j)
  }

  ghost predicate Pids(procs: seq<Proc>, nextPid: nat)
  {
    && (forall i | 0 <= i < |procs| && procs[i].state != Unused :: 1 <= procs[i].pid < nextPid)
    && (forall i, j | 0 <= i < j < |procs| && procs[i].state != Unused && procs[j].state != Unused ::
          procs[i].pid != procs[j].pid)
  }

  /** The reachable worlds, given the allocations `others` that are not processes' pages. */
  ghost predicate Inv(w: World, others: map<nat, nat>)
  {
    && |w.procs| == |w.rest| == MAX_PROCESSES
    && -1 <= w.current < MAX_PROCESSES && (w.current >= 0 ==> w.procs[w.current].state == Running)
    && w.free !! w.live.Keys
    && Exclusive(w)
    && AllAccounted(w, others)
    && (forall x | x in w.leaked :: x in w.live && w.live[x] == 0 && x !in others)
    && (forall x | x in others :: x in w.live && w.live[x] == others[x])
    && |w.live| == |others| + Shares(w.procs) + 4 * w.stackFailures
    && w.nextPid == 1 + UsedSlots(w.procs)
    && Pids(w.procs, w.nextPid)
  }

  // ----- counting

  lemma {:induction false} CountUpdate(procs: seq<Proc>, i: nat, p: Proc)
    requires i < |procs|
    ensures Shares(procs[i := p]) == Shares(procs) - Share(procs[i]) + Share(p)
    ensures UsedSlots(procs[i := p]) == UsedSlots(procs) - (if procs[i].state == Unused then 0 else 1)
                                        + (if p.state == Unused then 0 else 1)
  {
    var n := |procs| - 1;
    if i == n {
      assert procs[i := p][..n] == procs[..n];
    } else {
      assert procs[i := p][..n] == procs[..n][i := p];
      CountUpdate(procs[..n], i, p);
    }
  }

  lemma {:induction false} UsedAtMost(procs: seq<Proc>)
    ensures UsedSlots(procs) <= |procs|
  {
    if procs != [] { UsedAtMost(procs[..|procs| - 1]); }
  }

  lemma AddingSize(live: map<nat, nat>, pages: set<nat>)
    requires pages !! live.Keys
    ensures |Adding(live, pages)| == |live| + |pages|
    ensures Adding(live, pages).Keys == live.Keys + pages
  {
    var m := Adding(live, pages);
    assert m.Keys == live.Keys + pages;
    assert |m.Keys| == |live.Keys| + |pages|;
  }

  lemma RemovingSize(live: map<nat, nat>, pages: set<nat>)
    requires pages <= live.Keys
    ensures |live - pages| == |live| - |pages|
  {
    var m := live - pages;
    assert m.Keys == live.Keys - pages;
    assert live.Keys == m.Keys + pages;
    assert |live.Keys| == |m.Keys| + |pages|;
  }

  // ----- one step

  lemma ExclusiveShrinks(w: World, t: World)
    requires |w.procs| == |w.rest| == |t.procs| == |t.rest| && Exclusive(w)
    requires forall i | 0 <= i < |w.procs| :: Owned(t, i) <= Owned(w, i)
    ensures Exclusive(t)
  {
    forall i, j | 0 <= i < j < |t.procs|
      ensures Owned(t, i) !! Owned(t, j)
    {
      assert Owned(w, i) !! Owned(w, j);
      assert Owned(t, i) <= Owned(w, i) && Owned(t, j) <= Owned(w, j);
    }
  }

  lemma ExclusiveGrows(w: World, t: World, slot: nat)
    requires |w.procs| == |w.rest| == |t.procs| == |t.rest| && Exclusive(w) && slot < |w.procs|
    requires forall i | 0 <= i < |w.procs| && i != slot :: Owned(t, i) == Owned(w, i) && Owned(t, i) !! Owned(t, slot)
    ensures Exclusive(t)
  {
    forall i, j | 0 <= i < j < |t.procs|
      ensures Owned(t, i) !! Owned(t, j)
    {
      assert Owned(w, i) !! Owned(w, j);
      assert i != slot ==> Owned(t, i) == Owned(w, i) && Owned(t, i) !! Owned(t, slot);
      assert j != slot ==> Owned(t, j) == Owned(w, j) && Owned(t, j) !! Owned(t, slot);
    }
  }

  /** A slot whose pages were and stay live keeps its account. */
  lemma StaysAccounted(w: World, t: World, others: map<nat, nat>, i: nat)
    requires |w.procs| == |w.rest| == |t.procs| == |t.rest| && i < |w.procs|
    requires Accounted(w, others, i) && Owned(t, i) == Owned(w, i) && t.rest[i] == w.rest[i]
    requires Share(t.procs[i]) == Share(w.procs[i]) && (t.procs[i].state == Unused <==> w.procs[i].state == Unused)
    requires forall x | x in Owned(w, i) :: x in t.live && t.live[x] == w.live[x] && x !in t.leaked
    ensures Accounted(t, others, i)
  {
  }

  ghost predicate AllAccounted(w: World, others: map<nat, nat>)
  {
    |w.procs| == |w.rest| && forall i | 0 <= i < |w.procs| :: Accounted(w, others, i)
  }

  lemma NewPages(p: Proc, dir: nat, rest: set<nat>, kstack: nat)
    requires p.state == Ready && p.pageDirectory == dir * PAGE_SIZE && p.kernelStack == kstack * PAGE_SIZE + PAGE_SIZE
    ensures PagesOf(p, rest) == rest + {dir, kstack}
  {
  }

  lemma CreatedAccounts(w: World, others: map<nat, nat>, slot: nat, dir: nat, rest: set<nat>, kstack: nat)
    requires AllAccounted(w, others) && slot < |w.procs| && SixPages(w, dir, rest, kstack)
    requires (forall x | x in w.leaked || x in others :: x in w.live)
    ensures AllAccounted(CreatedWorld(w, slot, dir, rest, kstack), others)
    ensures Owned(CreatedWorld(w, slot, dir, rest, kstack), slot) == rest + {dir, kstack}
  {
    var t := CreatedWorld(w, slot, dir, rest, kstack);
    NewPages(t.procs[slot], dir, rest, kstack);
    forall i | 0 <= i < |w.procs|
      ensures Accounted(t, others, i)
    {
      if i != slot {
        assert Accounted(w, others, i) && t.procs[i] == w.procs[i] && t.rest[i] == w.rest[i];
        StaysAccounted(w, t, others, i);
      }
    }
  }

  lemma CreatedExclusive(w: World, others: map<nat, nat>, slot: nat, dir: nat, rest: set<nat>, kstack: nat)
    requires AllAccounted(w, others) && Exclusive(w) && slot < |w.procs| && SixPages(w, dir, rest, kstack)
    ensures Exclusive(CreatedWorld(w, slot, dir, rest, kstack))
  {
    var t := CreatedWorld(w, slot, dir, rest, kstack);
    NewPages(t.procs[slot], dir, rest, kstack);
    forall i | 0 <= i < |w.procs| && i != slot
      ensures Owned(t, i) == Owned(w, i) && Owned(t, i) !! Owned(t, slot)
    {
      assert Accounted(w, others, i) && t.procs[i] == w.procs[i] && t.rest[i] == w.rest[i];
    }
    ExclusiveGrows(w, t, slot);
  }

  lemma CreatedKeeps(w: World, others: map<nat, nat>, slot: nat, dir: nat, rest: set<nat>, kstack: nat)
    requires Inv(w, others) && slot < MAX_PROCESSES && w.procs[slot].state == Unused
    requires SixPages(w, dir, rest, kstack)
    ensures Inv(CreatedWorld(w, slot, dir, rest, kstack), others)
  {
    var t := CreatedWorld(w, slot, dir, rest, kstack);
    assert AllAccounted(t, others) by { CreatedAccounts(w, others, slot, dir, rest, kstack); }
    assert Exclusive(t) by { CreatedExclusive(w, others, slot, dir, rest, kstack); }
    CreatedPages(w, slot, dir, rest, kstack);
    CreatedCounts(w, slot, dir, rest, kstack);
  }

  /** The next identifier is one that no process has. */
  lemma NewPid(procs: seq<Proc>, nextPid: nat, slot: nat, p: Proc)
    requires Pids(procs, nextPid) && slot < |procs| && p.pid == nextPid > 0
    ensures Pids(procs[slot := p], nextPid + 1)
  {
  }

  /** A creation moves six pages from the free ones to the live ones. */
  lemma CreatedPages(w: World, slot: nat, dir: nat, rest: set<nat>, kstack: nat)
    requires slot < |w.procs| == |w.rest| && SixPages(w, dir, rest, kstack) && w.free !! w.live.Keys
    ensures var t := CreatedWorld(w, slot, dir, rest, kstack);
            && |t.live| == |w.live| + 6 && t.free !! t.live.Keys
            && (forall x | x in w.live :: x in t.live && t.live[x] == w.live[x])
  {
    AddingSize(w.live, rest + {dir, kstack});
  }

  lemma CreatedCounts(w: World, slot: nat, dir: nat, rest: set<nat>, kstack: nat)
    requires slot < |w.procs| == |w.rest| && w.procs[slot].state == Unused
    requires w.nextPid == 1 + UsedSlots(w.procs) && Pids(w.procs, w.nextPid)
    ensures var t := CreatedWorld(w, slot, dir, rest, kstack);
            && Shares(t.procs) == Shares(w.procs) + 6
            && t.nextPid == 1 + UsedSlots(t.procs) && Pids(t.procs, t.nextPid)
  {
    var p := Proc(Ready, w.nextPid, dir * PAGE_SIZE, kstack * PAGE_SIZE + PAGE_SIZE);
    NewPid(w.procs, w.nextPid, slot, p);
    CountUpdate(w.procs, slot, p);
  }

  /** Nothing about ownership changes if no slot's pages change and the live pages stay live. */
  lemma SameOwners(w: World, t: World, others: map<nat, nat>)
    requires AllAccounted(w, others) && Exclusive(w) && |t.procs| == |w.procs| && t.rest == w.rest
    requires forall i | 0 <= i < |w.procs| :: Owned(t, i) == Owned(w, i)
    requires forall i | 0 <= i < |w.procs| :: Share(t.procs[i]) == Share(w.procs[i])
    requires forall x | x in w.live :: x in t.live && t.live[x] == w.live[x] && (x in t.leaked ==> x in w.leaked)
    ensures AllAccounted(t, others) && Exclusive(t)
  {
    forall i | 0 <= i < |w.procs|
      ensures Accounted(t, others, i)
    {
      assert Accounted(w, others, i);
      StaysAccounted(w, t, others, i);
    }
    ExclusiveShrinks(w, t);
  }

  lemma StackFailedKeeps(w: World, others: map<nat, nat>, lost: set<nat>)
    requires Inv(w, others) && |lost| == 4 && lost <= w.free && lost !! w.live.Keys
    ensures Inv(StackFailedWorld(w, lost), others)
  {
    var t := StackFailedWorld(w, lost);
    AddingSize(w.live, lost);
    assert AllAccounted(t, others) && Exclusive(t) by { SameOwners(w, t, others); }
  }

  lemma StartOwners(w: World, others: map<nat, nat>, i: nat)
    requires AllAccounted(w, others) && Exclusive(w) && i < |w.procs| && w.procs[i].state == Ready
    ensures var t := w.(procs := w.procs[i := w.procs[i].(state := Running)], current := i);
            AllAccounted(t, others) && Exclusive(t)
  {
    SameOwners(w, w.(procs := w.procs[i := w.procs[i].(state := Running)], current := i), others);
  }

  lemma StartKeeps(w: World, others: map<nat, nat>, pid: nat)
    requires Inv(w, others)
    ensures Inv(StartStep(w, pid), others)
  {
    var i := FirstReady(w.procs, pid, 0);
    if i < |w.procs| {
      CountUpdate(w.procs, i, w.procs[i].(state := Running));
      StartOwners(w, others, i);
    }
  }

  /** The two pages that an exit gives back are live single pages, and distinct. */
  lemma ExitPages(w: World, others: map<nat, nat>)
    requires Inv(w, others) && w.current >= 0
    ensures var p := w.procs[w.current];
            && DirectoryPage(p) != StackPage(p) && p.state == Running
            && DirectoryPage(p) in w.live && w.live[DirectoryPage(p)] == 0
            && StackPage(p) in w.live && w.live[StackPage(p)] == 0
  {
    var i := w.current;
    var p := w.procs[i];
    assert Accounted(w, others, i) && Owned(w, i) == w.rest[i] + {DirectoryPage(p), StackPage(p)};
    TwoPages(w.rest[i], DirectoryPage(p), StackPage(p));
    assert DirectoryPage(p) in Owned(w, i) && StackPage(p) in Owned(w, i);
  }

  /** The ownership part of an exit. */
  lemma ExitOwners(w: World, others: map<nat, nat>)
    requires Inv(w, others) && w.current >= 0
    ensures var t, p := ExitStep(w), w.procs[w.current]; var pages := {DirectoryPage(p), StackPage(p)};
            && |pages| == 2 && pages <= w.live.Keys && pages !! others.Keys && pages !! w.leaked
            && Exclusive(t) && AllAccounted(t, others)
  {
    var t, i := ExitStep(w), w.current;
    var p := w.procs[i];
    var pages := {DirectoryPage(p), StackPage(p)};
    assert Accounted(w, others, i) && Owned(w, i) == w.rest[i] + pages;
    TwoPages(w.rest[i], DirectoryPage(p), StackPage(p));
    forall k | 0 <= k < MAX_PROCESSES
      ensures Accounted(t, others, k) && Owned(t, k) <= Owned(w, k)
    {
      assert Accounted(w, others, k);
      if k != i {
        assert Owned(t, k) == Owned(w, k) && Owned(w, k) !! Owned(w, i);
      }
    }
    ExclusiveShrinks(w, t);
  }

  lemma ExitKeeps(w: World, others: map<nat, nat>)
    requires Inv(w, others)
    ensures Inv(ExitStep(w), others)
  {
    if w.current >= 0 {
      var p := w.procs[w.current];
      ExitOwners(w, others);
      RemovingSize(w.live, {DirectoryPage(p), StackPage(p)});
      CountUpdate(w.procs, w.current, p.(state := Terminated));
    }
  }

  /** Four pages and two more make six only if the two are new and distinct. */
  lemma TwoPages(rest: set<nat>, a: nat, b: nat)
    requires |rest + {a, b}| == 6 && |rest| == 4
    ensures a != b && a !in rest && b !in rest && |{a, b}| == 2
  {
    assert |rest + {a}| <= 5 by {
      assert |rest + {a}| == |rest| + |{a} - rest|;
      assert {a} - rest <= {a};
    }
    assert |rest + {b}| <= 5 by {
      assert |rest + {b}| == |rest| + |{b} - rest|;
      assert {b} - rest <= {b};
    }
    assert a == b || b in rest ==> rest + {a, b} == rest + {a};
    assert a in rest ==> rest + {a, b} == rest + {b};
  }

  lemma StepKeeps(w: World, t: World, op: Op, others: map<nat, nat>)
    requires Inv(w, others) && Step(w, t, op)
    ensures Inv(t, others)
  {
    match op
    case Create(found) =>
      var slot := FirstUnused(w.procs, 0);
      if found && slot < MAX_PROCESSES && |w.free| == 5 {
        var lost: set<nat> :| |lost| == 4 && lost <= w.free && lost !! w.live.Keys && t == StackFailedWorld(w, lost);
        StackFailedKeeps(w, others, lost);
      } else if found && slot < MAX_PROCESSES && |w.free| >= 6 {
        var dir: nat, rest: set<nat>, kstack: nat :| SixPages(w, dir, rest, kstack)
            && t == CreatedWorld(w, slot, dir, rest, kstack);
        CreatedKeeps(w, others, slot, dir, rest, kstack);
      }
    case Start(pid) => StartKeeps(w, others, pid);
    case Exit => ExitKeeps(w, others);
  }

  // ----- whole runs

  /** The worlds a sequence of operations passes through. */
  ghost predicate Run(ws: seq<World>, ops: seq<Op>, others: map<nat, nat>)
  {
    && |ws| == |ops| + 1 && Inv(ws[0], others)
    && (forall k | 0 <= k < |ops| :: Linked(ws, ops, k))
  }

  ghost predicate Linked(ws: seq<World>, ops: seq<Op>, k: nat)
    requires |ws| == |ops| + 1 && k < |ops|
  {
    && |ws[k].procs| == |ws[k].rest| && ws[k].current < |ws[k].procs|
    && Step(ws[k], ws[k + 1], ops[k])
  }

  lemma {:induction false} RunKeeps(ws: seq<World>, ops: seq<Op>, others: map<nat, nat>, k: nat)
    requires Run(ws, ops, others) && k < |ws|
    ensures Inv(ws[k], others)
  {
    if k > 0 {
      RunKeeps(ws, ops, others, k - 1);
      assert Linked(ws, ops, k - 1);
      StepKeeps(ws[k - 1], ws[k], ops[k - 1], others);
    }
  }

  /** No page ever belongs to two processes, and none of them is free or leaked. */
  lemma RunExclusive(ws: seq<World>, ops: seq<Op>, others: map<nat, nat>, k: nat, i: nat, j: nat)
    requires Run(ws, ops, others) && k < |ws| && i < j < MAX_PROCESSES
    ensures |ws[k].procs| == |ws[k].rest| == MAX_PROCESSES
    ensures Owned(ws[k], i) !! Owned(ws[k], j)
    ensures Owned(ws[k], i) !! ws[k].free && Owned(ws[k], i) !! ws[k].leaked
  {
    RunKeeps(ws, ops, others, k);
    assert Accounted(ws[k], others, i);
  }

  /** The ledger: at every moment the allocator holds, besides the other allocations, six pages for
      every process not yet exited, four for every exited one, and four for every creation that
      failed at the kernel stack. */
  lemma RunLedger(ws: seq<World>, ops: seq<Op>, others: map<nat, nat>, k: nat)
    requires Run(ws, ops, others) && k < |ws|
    ensures |ws[k].live| == |others| + Shares(ws[k].procs) + 4 * ws[k].stackFailures
    ensures ws[k].nextPid == 1 + UsedSlots(ws[k].procs) <= 1 + MAX_PROCESSES
  {
    RunKeeps(ws, ops, others, k);
    UsedAtMost(ws[k].procs);
  }

  /** A slot that has left `Unused` never returns to it, and an exited process stays exited. */
  lemma {:induction false} RunMonotone(ws: seq<World>, ops: seq<Op>, others: map<nat, nat>, j: nat, k: nat, i: nat)
    requires Run(ws, ops, others) && j <= k < |ws| && i < MAX_PROCESSES
    ensures |ws[j].procs| == |ws[k].procs| == MAX_PROCESSES
    ensures ws[j].procs[i].state != Unused ==>
        ws[k].procs[i].state != Unused && ws[k].procs[i].pid == ws[j].procs[i].pid
    ensures ws[j].procs[i].state == Terminated ==> ws[k].procs[i] == ws[j].procs[i]
    decreases k
  {
    RunKeeps(ws, ops, others, j);
    if j < k {
      RunMonotone(ws, ops, others, j, k - 1, i);
      RunKeeps(ws, ops, others, k - 1);
      assert Linked(ws, ops, k - 1);
      StepMonotone(ws[k - 1], ws[k], ops[k - 1], others, i);
    }
  }

  lemma StepMonotone(w: World, t: World, op: Op, others: map<nat, nat>, i: nat)
    requires Inv(w, others) && Step(w, t, op) && i < MAX_PROCESSES
    ensures |t.procs| == MAX_PROCESSES
    ensures w.procs[i].state != Unused ==> t.procs[i].state != Unused && t.procs[i].pid == w.procs[i].pid
    ensures w.procs[i].state == Terminated ==> t.procs[i] == w.procs[i]
  {
    assert Sits(w);
    TableStep(w, t, op, i);
  }

  ghost predicate Sits(w: World)
  {
    && |w.procs| == |w.rest| == MAX_PROCESSES && -1 <= w.current < MAX_PROCESSES
    && (w.current >= 0 ==> w.procs[w.current].state == Running)
  }

  /** This needs no more of the world than that the current process runs. */
  lemma TableStep(w: World, t: World, op: Op, i: nat)
    requires Sits(w) && Step(w, t, op) && i < MAX_PROCESSES
    ensures |t.procs| == MAX_PROCESSES
    ensures w.procs[i].state != Unused ==> t.procs[i].state != Unused && t.procs[i].pid == w.procs[i].pid
    ensures w.procs[i].state == Terminated ==> t.procs[i] == w.procs[i]
  {
    match op
    case Create(found) =>
      var pid :| CreateStep(w, t, found, pid);
      assert t.procs == w.procs || w.procs[FirstUnused(w.procs, 0)].state == Unused;
    case Start(pid) =>
    case Exit =>
  }

  /** Every process exits at most once, so its directory and its kernel stack are given back at most once. */
  lemma RunExitsOnce(ws: seq<World>, ops: seq<Op>, others: map<nat, nat>, j: nat, k: nat)
    requires Run(ws, ops, others) && j < k < |ops|
    requires ops[j] == Exit && ws[j].current >= 0
    ensures ops[k] == Exit && ws[k].current >= 0 ==> ws[k].current != ws[j].current
  {
    ExitTerminates(ws, ops, others, j);
    RunMonotone(ws, ops, others, j + 1, k, ws[j].current);
    CurrentIsRunning(ws, ops, others, k);
  }

  lemma ExitTerminates(ws: seq<World>, ops: seq<Op>, others: map<nat, nat>, j: nat)
    requires Run(ws, ops, others) && j < |ops| && ops[j] == Exit && ws[j].current >= 0
    ensures ws[j].current < MAX_PROCESSES == |ws[j + 1].procs|
    ensures ws[j + 1].procs[ws[j].current].state == Terminated
  {
    RunKeeps(ws, ops, others, j);
    assert Linked(ws, ops, j);
  }

  lemma CurrentIsRunning(ws: seq<World>, ops: seq<Op>, others: map<nat, nat>, k: nat)
    requires Run(ws, ops, others) && k < |ws|
    ensures |ws[k].procs| == MAX_PROCESSES && ws[k].current < MAX_PROCESSES
    ensures ws[k].current >= 0 ==> ws[k].procs[ws[k].current].state == Running
  {
    RunKeeps(ws, ops, others, k);
  }

  /** The table after `process_init`, over allocations `others`. */
  function Initial(others: map<nat, nat>, free: set<nat>): World
  {
    World(others, free, seq(MAX_PROCESSES, i => Proc(Unused, 0, 0, 0)), seq(MAX_PROCESSES, i => {}), -1, 1, {}, 0)
  }

  lemma {:induction false} NoneUsed(procs: seq<Proc>)
    requires forall i | 0 <= i < |procs| :: procs[i].state == Unused
    ensures Shares(procs) == 0 && UsedSlots(procs) == 0
  {
    if procs != [] { NoneUsed(procs[..|procs| - 1]); }
  }

  lemma InitialInv(others: map<nat, nat>, free: set<nat>)
    requires free !! others.Keys
    ensures Inv(Initial(others, free), others)
  {
    NoneUsed(Initial(others, free).procs);
  }

  /** A failed creation changes nothing, unless exactly five pages were free and it got as far as taking
      them; then four pages more are allocated, and one is free. */
  lemma FailedCreation(w: World, t: World, others: map<nat, nat>, found: bool)
    requires Inv(w, others) && CreateStep(w, t, found, 0)
    ensures t.procs == w.procs && (t == w <==> !LosesPages(w, found))
    ensures LosesPages(w, found) ==> |t.live| == |w.live| + 4 && |t.free| == 1
  {
    if LosesPages(w, found) {
      var lost: set<nat> :| |lost| == 4 && lost <= w.free && lost !! w.live.Keys && t == StackFailedWorld(w, lost);
      FourLess(w, lost);
    }
  }

  lemma FourLess(w: World, lost: set<nat>)
    requires |lost| == 4 && lost <= w.free && lost !! w.live.Keys
    ensures var t := StackFailedWorld(w, lost); |t.live| == |w.live| + 4 && |t.free| + 4 == |w.free|
  {
    AddingSize(w.live, lost);
    assert w.free == (w.free - lost) + lost;
  }

  /** The module exists, a slot is unused, and exactly five pages are free. */
  predicate LosesPages(w: World, found: bool)
  {
    found && FirstUnused(w.procs, 0) < |w.procs| && |w.free| == 5
  }

  lemma LosingStep(w: World, lost: set<nat>)
    requires |w.procs| == |w.rest| && LosesPages(w, true) && |lost| == 4 && lost <= w.free && lost !! w.live.Keys
    ensures CreateStep(w, StackFailedWorld(w, lost), true, 0)
  {
  }

  // ----- what the three operations mean, in terms of the table and of page numbers

  /** The page was free and is a live single page. */
  ghost predicate Fresh(w: World, t: World, page: nat)
  {
    page in w.free && page !in t.free && page !in w.live && page in t.live && t.live[page] == 0
  }

  ghost predicate NewPage(w: World, t: World, addr: int)
  {
    exists page: nat :: Fresh(w, t, page) && addr == page * 4096
  }

  /** From `w` to `t` the process `pid` came into `slot`, and nothing else changed in the table. */
  ghost predicate Came(w: World, t: World, slot: nat, pid: nat)
  {
    && slot < |w.procs| == |t.procs| && w.procs[slot].state == Unused
    && (forall j | 0 <= j < slot :: w.procs[j].state != Unused)
    && (forall j | 0 <= j < |w.procs| && j != slot :: t.procs[j] == w.procs[j])
    && pid == w.nextPid && t.nextPid == pid + 1 && t.current == w.current
    && t.procs[slot].state == Ready && t.procs[slot].pid == pid
  }

  /** The directory and the kernel stack of `p` are in two new pages, and four more pages are new. */
  ghost predicate Equipped(w: World, t: World, p: Proc)
  {
    && p.pageDirectory != p.kernelStack - 4096
    && NewPage(w, t, p.pageDirectory) && NewPage(w, t, p.kernelStack - 4096)
    && |t.live| == |w.live| + 6 && |t.free| + 6 == |w.free|
    && (forall x | x in w.live :: x in t.live && t.live[x] == w.live[x])
  }

  /** A creation puts a new process, with the next identifier, into the first unused slot, with a directory
      and a kernel stack in pages that were free, and with four pages more; and it changes nothing else. */
  lemma CreateMeaning(w: World, t: World, found: bool, pid: nat) returns (slot: nat)
    requires |w.procs| == |w.rest| && w.free !! w.live.Keys && CreateStep(w, t, found, pid) && pid != 0
    ensures found && Came(w, t, slot, pid) && Equipped(w, t, t.procs[slot])
  {
    var dir, rest, kstack;
    slot, dir, rest, kstack := Witness(w, t, found, pid);
    CreatedCame(w, t, slot, dir, rest, kstack);
    CreatedEquipped(w, t, slot, dir, rest, kstack);
  }

  lemma CreatedCame(w: World, t: World, slot: nat, dir: nat, rest: set<nat>, kstack: nat)
    requires |w.procs| == |w.rest| && slot == FirstUnused(w.procs, 0) < |w.procs|
    requires t == CreatedWorld(w, slot, dir, rest, kstack)
    ensures Came(w, t, slot, w.nextPid)
  {
  }

  lemma Witness(w: World, t: World, found: bool, pid: nat) returns (slot: nat, dir: nat, rest: set<nat>, kstack: nat)
    requires |w.procs| == |w.rest| && CreateStep(w, t, found, pid) && pid != 0
    ensures found && pid == w.nextPid && slot == FirstUnused(w.procs, 0) < |w.procs| == |t.procs|
    ensures SixPages(w, dir, rest, kstack) && t == CreatedWorld(w, slot, dir, rest, kstack)
  {
    slot := FirstUnused(w.procs, 0);
    dir, rest, kstack :| SixPages(w, dir, rest, kstack) && t == CreatedWorld(w, slot, dir, rest, kstack);
  }

  lemma CreatedEquipped(w: World, t: World, slot: nat, dir: nat, rest: set<nat>, kstack: nat)
    requires |w.procs| == |w.rest| && w.free !! w.live.Keys && SixPages(w, dir, rest, kstack)
    requires slot < |w.procs| && t == CreatedWorld(w, slot, dir, rest, kstack)
    ensures Equipped(w, t, t.procs[slot])
  {
    var p := t.procs[slot];
    assert p.pageDirectory == dir * 4096 && p.kernelStack - 4096 == kstack * 4096;
    CreatedPages(w, slot, dir, rest, kstack);
    SixFewer(w.free, rest + {dir, kstack});
    TwoPages(rest, dir, kstack);
    assert Fresh(w, t, dir) && Fresh(w, t, kstack);
  }

  lemma SixFewer(free: set<nat>, six: set<nat>)
    requires six <= free
    ensures |free - six| + |six| == |free|
  {
    assert free == (free - six) + six;
  }

  /** The process with this identifier, if it is ready, runs and is the current one; nothing else changes. */
  lemma StartMeaning(w: World, others: map<nat, nat>, pid: nat, i: nat)
    requires Inv(w, others) && i < |w.procs|
    ensures var t := StartStep(w, pid);
            && (w.procs[i].pid == pid && w.procs[i].state == Ready ==>
                  t == w.(procs := w.procs[i := Proc(Running, pid, w.procs[i].pageDirectory, w.procs[i].kernelStack)],
                          current := i))
            && ((forall j | 0 <= j < |w.procs| :: w.procs[j].pid != pid || w.procs[j].state != Ready) ==> t == w)
  {
    var r := FirstReady(w.procs, pid, 0);
    assert w.procs[i].pid == pid && w.procs[i].state == Ready ==> r <= i;
  }

  /** The current process is terminated and there is none any more; the page of its directory and the page
      that ends at its kernel stack were live and are free, and nothing else changes. */
  lemma ExitMeaning(w: World, others: map<nat, nat>, dir: nat, kstack: nat)
    requires Inv(w, others)
    requires w.current >= 0 ==>
               var p := w.procs[w.current]; p.pageDirectory == dir * 4096 && p.kernelStack == (kstack + 1) * 4096
    ensures var t := ExitStep(w);
            if w.current < 0 then t == w
            else
              var p := w.procs[w.current];
              && dir != kstack && dir in w.live && kstack in w.live
              && t == w.(live := w.live - {dir, kstack}, free := w.free + {dir, kstack}, current := -1,
                         procs := w.procs[w.current := Proc(Terminated, p.pid, p.pageDirectory, p.kernelStack)])
  {
    if w.current >= 0 {
      assert DirectoryPage(w.procs[w.current]) == dir && StackPage(w.procs[w.current]) == kstack;
      ExitPages(w, others);
    }
  }
}
