/** The process table as it runs. */
module ProcessTable {
  import opened Paging
  import opened PageLog
  import opened Sequences
  import opened ProcessRuns
  import opened SpaceRuns
  import opened Vmm
  import opened PageTables
  import BuddyLists

  /** What a log of four pages means after a creation that failed at the kernel stack. */
  lemma FourLost(w: World, taken: seq<nat>, live: map<nat, nat>, free: set<nat>)
    requires TookAll(w.live, w.free, taken, live, free) && |taken| == 4
    ensures var lost := Elements(taken);
            && |lost| == 4 && lost <= w.free && lost !! w.live.Keys
            && StackFailedWorld(w, lost).live == live && StackFailedWorld(w, lost).free == free
  {
  }

  ghost predicate Addresses(procs: seq<Proc>)
  {
    forall i | 0 <= i < |procs| && procs[i].state != Unused ::
      && procs[i].pageDirectory % PAGE_SIZE == 0 && procs[i].pageDirectory > 0
      && procs[i].kernelStack % PAGE_SIZE == 0 && procs[i].kernelStack > PAGE_SIZE
  }

  /** The invariant of the table and its pages, said `n` levels down as in `PagePool`. */
  ghost predicate Sound(w: World, others: map<nat, nat>, n: nat)
  {
    if n > 0 then Sound(w, others, n - 1) else Inv(w, others) && Addresses(w.procs)
  }

  lemma {:induction false} Unfold(w: World, others: map<nat, nat>, n: nat)
    ensures Sound(w, others, n) <==> Inv(w, others) && Addresses(w.procs)
  {
    if n > 0 { Unfold(w, others, n - 1); }
  }

  lemma PidPositive(w: World, others: map<nat, nat>, n: nat)
    requires Sound(w, others, n)
    ensures w.nextPid >= 1
  {
    Unfold(w, others, n);
  }

  lemma StartSound(w: World, others: map<nat, nat>, n: nat, pid: nat)
    requires Sound(w, others, n)
    ensures Sound(StartStep(w, pid), others, n)
  {
    Unfold(w, others, n);
    StartKeeps(w, others, pid);
    Unfold(StartStep(w, pid), others, n);
  }

  lemma ExitSound(w: World, others: map<nat, nat>, n: nat)
    requires Sound(w, others, n) && 0 <= w.current < |w.procs|
    ensures Sound(ExitStep(w), others, n)
    ensures var p := w.procs[w.current];
            && p.pageDirectory % PAGE_SIZE == 0 && p.pageDirectory > 0
            && p.kernelStack % PAGE_SIZE == 0 && p.kernelStack > PAGE_SIZE
            && DirectoryPage(p) != StackPage(p)
            && DirectoryPage(p) in w.live && w.live[DirectoryPage(p)] == 0
            && StackPage(p) in w.live && w.live[StackPage(p)] == 0
  {
    Unfold(w, others, n);
    ExitKeeps(w, others);
    ExitPages(w, others);
    Unfold(ExitStep(w), others, n);
  }

  lemma CreatedSound(w: World, others: map<nat, nat>, n: nat, slot: nat, dir: nat, rest: set<nat>, kstack: nat)
    requires Sound(w, others, n) && |w.procs| == |w.rest| && slot == FirstUnused(w.procs, 0) < |w.procs|
    requires SixPages(w, dir, rest, kstack) && dir != 0 && kstack != 0
    ensures Sound(CreatedWorld(w, slot, dir, rest, kstack), others, n)
    ensures CreateStep(w, CreatedWorld(w, slot, dir, rest, kstack), true, w.nextPid)
  {
    Unfold(w, others, n);
    CreatedKeeps(w, others, slot, dir, rest, kstack);
    CreatedAddresses(w.procs, slot, w.nextPid, dir, kstack);
    Unfold(CreatedWorld(w, slot, dir, rest, kstack), others, n);
    CreatedIsStep(w, slot, dir, rest, kstack);
  }

  lemma CreatedAddresses(procs: seq<Proc>, slot: nat, pid: nat, dir: nat, kstack: nat)
    requires Addresses(procs) && slot < |procs| && dir != 0 && kstack != 0
    ensures Addresses(procs[slot := Proc(Ready, pid, dir * PAGE_SIZE, kstack * PAGE_SIZE + PAGE_SIZE)])
  {
  }

  lemma CreatedIsStep(w: World, slot: nat, dir: nat, rest: set<nat>, kstack: nat)
    requires |w.procs| == |w.rest| && slot == FirstUnused(w.procs, 0) < |w.procs|
    requires SixPages(w, dir, rest, kstack)
    ensures CreateStep(w, CreatedWorld(w, slot, dir, rest, kstack), true, w.nextPid)
  {
    Smaller(rest + {dir, kstack}, w.free);
  }

  /** The world after a failed creation that did not give back the pages `taken`. */
  function FailedWorld(w: World, taken: seq<nat>): World
  {
    if taken == [] then w else StackFailedWorld(w, Elements(taken))
  }

  lemma FailedSound(w: World, others: map<nat, nat>, n: nat, taken: seq<nat>, live: map<nat, nat>, free: set<nat>)
    requires Sound(w, others, n) && TookAll(w.live, w.free, taken, live, free)
    requires |w.procs| == |w.rest| && FirstUnused(w.procs, 0) < |w.procs|
    requires |w.free| < 6 && |taken| == if |w.free| == 5 then 4 else 0
    ensures CreateStep(w, FailedWorld(w, taken), true, 0) && Sound(FailedWorld(w, taken), others, n)
  {
    Unfold(w, others, n);
    if taken != [] {
      FourLost(w, taken, live, free);
      StackFailedKeeps(w, others, Elements(taken));
    }
    Unfold(FailedWorld(w, taken), others, n);
  }

  /** What a log of six pages means after a creation that succeeded. */
  lemma SixTaken(w: World, dir: nat, extra: seq<nat>, kstack: nat, live: map<nat, nat>, free: set<nat>, slot: nat)
    requires TookAll(w.live, w.free, [dir] + extra + [kstack], live, free) && |extra| == 4
    requires slot < |w.procs| == |w.rest|
    ensures SixPages(w, dir, Elements(extra), kstack)
    ensures var t := CreatedWorld(w, slot, dir, Elements(extra), kstack); t.live == live && t.free == free
  {
    SixElements(dir, extra, kstack);
    FourAndTwo(Elements(extra), dir, kstack);
  }

  /** The world that a successful creation leaves. */
  function Registered(w: World, slot: nat, dir: nat, rest: set<nat>, kstack: nat, live: map<nat, nat>,
      free: set<nat>): World
    requires slot < |w.procs| == |w.rest|
  {
    w.(live := live, free := free, procs := w.procs[slot := Proc(Ready, w.nextPid, dir, kstack + PAGE_SIZE)],
       rest := w.rest[slot := rest], nextPid := w.nextPid + 1)
  }

  lemma RegisteredIsCreated(w: World, slot: nat, dir: nat, rest: set<nat>, kstack: nat, live: map<nat, nat>,
      free: set<nat>)
    requires slot < |w.procs| == |w.rest| && dir % PAGE_SIZE == kstack % PAGE_SIZE == 0
    requires var t := CreatedWorld(w, slot, dir / PAGE_SIZE, rest, kstack / PAGE_SIZE); t.live == live && t.free == free
    ensures Registered(w, slot, dir, rest, kstack, live, free)
        == CreatedWorld(w, slot, dir / PAGE_SIZE, rest, kstack / PAGE_SIZE)
  {
  }

  lemma SixSound(w: World, others: map<nat, nat>, n: nat, dir: nat, extra: seq<nat>, kstack: nat,
                 live: map<nat, nat>, free: set<nat>, slot: nat)
    requires n >= 3 && Sound(w, others, n) && slot == FirstUnused(w.procs, 0) < |w.procs| == |w.rest|
    requires dir % PAGE_SIZE == kstack % PAGE_SIZE == 0 && dir != 0 && kstack != 0 && |extra| == 4
    requires TookAll(w.live, w.free, [dir / PAGE_SIZE] + extra + [kstack / PAGE_SIZE], live, free)
    ensures var t := Registered(w.(live := live, free := free), slot, dir, Elements(extra), kstack, live, free);
            Sound(t, others, n) && CreateStep(w, t, true, w.nextPid)
  {
    var d, k := dir / PAGE_SIZE, kstack / PAGE_SIZE;
    SixTaken(w, d, extra, k, live, free, slot);
    CreatedSound(w, others, n, slot, d, Elements(extra), k);
    RegisteredIsCreated(w, slot, dir, Elements(extra), kstack, live, free);
    assert Registered(w.(live := live, free := free), slot, dir, Elements(extra), kstack, live, free)
           == Registered(w, slot, dir, Elements(extra), kstack, live, free);
  }

  /** Where the directory and the program's pages were taken from free ones, they are distinct, and
      filling them changes no page that was not free. */
  lemma FilledSpace(before: map<nat, Content>, kernel: seq<nat>, dir: nat, binary: nat, size: nat, ps: seq<nat>,
      taken: seq<nat>, free: set<nat>)
    requires |kernel| == 1024 && |ps| == 4 && taken == [dir] + ps
    requires forall i | 0 <= i < |taken| :: taken[i] in free
    requires forall i, j | 0 <= i < j < |taken| :: taken[i] != taken[j]
    ensures Distinct(dir, ps) && Same(before, NewSpace(before, kernel, dir, binary, size, ps), free)
  {
    assert taken[0] == dir && forall i | 0 <= i < 4 :: taken[i + 1] == ps[i];
    NewSpaceFrame(before, kernel, dir, binary, size, ps);
  }

  lemma SixElements(dir: nat, extra: seq<nat>, kstack: nat)
    ensures Elements([dir] + extra + [kstack]) == Elements(extra) + {dir, kstack}
    ensures |Elements(extra)| <= |extra|
  {
    SizeAtMost(extra);
  }

  lemma FourAndTwo(rest: set<nat>, a: nat, b: nat)
    requires |rest| <= 4 && |rest + {a, b}| == 6
    ensures |rest| == 4
  {
    var two := {a, b} - rest;
    assert rest + {a, b} == rest + two;
    Smaller(two, {a, b});
  }

  lemma Smaller(a: set<nat>, b: set<nat>)
    requires a <= b
    ensures |a| <= |b|
  {
    assert b == a + (b - a);
  }

  class Processes {
    const spaces: AddressSpaces
    const depth: nat
    const processes: array<Proc>
    var current: int                  // index into the table, or -1 for NULL
    var nextPid: nat
    ghost var rest: seq<set<nat>>
    ghost var leaked: set<nat>
    ghost var stackFailures: nat
    ghost const others: map<nat, nat>

    /** The objects of the page allocator and of the mapper are distinct from the table. */
    ghost predicate Layout()
      reads this, spaces, spaces.pages, spaces.pages.pool, spaces.pages.pool.pmm
    {
      && processes.Length == |rest| == MAX_PROCESSES && -1 <= current < MAX_PROCESSES
      && (processes as object) !in {spaces.pages.pool.pmm.nrFree as object, spaces.pages.pool.pmm.bitmap,
                                    spaces.mapper.refCount, spaces.mapper.table, spaces.mapper.directory,
                                        spaces.mapper.available}
    }

    ghost function View(): World
      reads this, processes, spaces, spaces.pages, spaces.pages.pool
    {
      World(spaces.pages.pool.live, spaces.pages.pool.free, processes[..], rest, current, nextPid, leaked,
          stackFailures)
    }

    ghost predicate Valid()
      reads this, processes, spaces, spaces.pages, spaces.pages.pool
      reads spaces.pages.pool.pmm, spaces.pages.pool.pmm.heads, spaces.pages.pool.pmm.frames
      reads spaces.pages.pool.pmm.nrFree, spaces.pages.pool.pmm.bitmap
      reads spaces.mapper, spaces.mapper.refCount, spaces.mapper.directory, spaces.mapper.table, spaces.mapper.available
    {
      && Layout() && spaces.Valid() && spaces.mapper.held == map[]
      && depth >= 3 && Sound(View(), others, depth)
    }

    /** `process_init`; whatever is allocated already is not the processes'. */
    constructor (spaces: AddressSpaces)
      requires spaces.Valid() && spaces.mapper.held == map[]
      ensures Valid() && this.spaces == spaces && fresh(processes)
      ensures View() == Initial(spaces.pages.pool.live, spaces.pages.pool.free)
      ensures others == spaces.pages.pool.live
    {
      this.spaces, depth := spaces, 3;
      processes := new Proc[MAX_PROCESSES](i => Proc(Unused, 0, 0, 0));
      current, nextPid := -1, 1;
      rest, leaked, stackFailures := seq(MAX_PROCESSES, i => {}), {}, 0;
      others := spaces.pages.pool.live;
      new;
      spaces.pages.pool.Separate();
      InitialInv(others, spaces.pages.pool.free);
      assert processes[..] == Initial(others, spaces.pages.pool.free).procs;
      Unfold(View(), others, depth);
    }

    /** The search loop of `process_create_from_module`. */
    method FindUnused() returns (slot: nat)
      requires processes.Length == MAX_PROCESSES
      ensures slot == FirstUnused(processes[..], 0)
    {
      slot := 0;
      while slot < MAX_PROCESSES && processes[slot].state != Unused
        invariant slot <= MAX_PROCESSES && FirstUnused(processes[..], 0) == FirstUnused(processes[..], slot)
      {
        slot := slot + 1;
      }
    }

    method FindReady(pid: nat) returns (i: nat)
      requires processes.Length == MAX_PROCESSES
      ensures i == FirstReady(processes[..], pid, 0)
    {
      i := 0;
      while i < MAX_PROCESSES && !(processes[i].pid == pid && processes[i].state == Ready)
        invariant i <= MAX_PROCESSES && FirstReady(processes[..], pid, 0) == FirstReady(processes[..], pid, i)
      {
        i := i + 1;
      }
    }

    /** `process_start` */
    method Start(pid: nat)
      requires Valid()
      modifies this`current, processes
      ensures Valid() && View() == StartStep(old(View()), pid) && spaces.memory == old(spaces.memory)
    {
      var i := FindReady(pid);
      if i == MAX_PROCESSES { return; }
      StartSound(View(), others, depth, pid);
      current := i;
      processes[i] := processes[i].(state := Running);
    }

    /** `process_exit_current` */
    method Exit()
      requires Valid()
      modifies this`current, processes, spaces.pages, spaces.pages.pool, spaces.pages.pool.pmm`s
      modifies spaces.pages.pool.pmm.nrFree
      modifies spaces.pages.pool.pmm.bitmap, spaces.pages.pool.pmm.heads, spaces.pages.pool.pmm.frames
      ensures Valid() && View() == ExitStep(old(View())) && spaces.memory == old(spaces.memory)
    {
      if current < 0 { return; }
      ExitSound(View(), others, depth);
      ghost var w := View();
      GiveTwo(processes[current]);
      Terminate(w);
    }

    /** Mark the current process terminated once its two pages are given back; `w` is the world before. */
    method Terminate(ghost w: World)
      requires Layout() && spaces.Valid() && spaces.mapper.held == map[] && depth >= 3
      requires 0 <= w.current < |w.procs| && Sound(ExitStep(w), others, depth)
      requires View() == w.(live := ExitStep(w).live, free := ExitStep(w).free)
      modifies this`current, processes
      ensures Valid() && View() == ExitStep(w)
    {
      processes[current] := processes[current].(state := Terminated);
      current := -1;
    }

    /** The directory and then the kernel stack of `p`. */
    method GiveTwo(p: Proc)
      requires spaces.Valid() && p.pageDirectory % PAGE_SIZE == 0 && p.pageDirectory > 0
      requires p.kernelStack % PAGE_SIZE == 0 && p.kernelStack > PAGE_SIZE
      requires DirectoryPage(p) != StackPage(p)
      requires forall x | x in {DirectoryPage(p), StackPage(p)} ::
          x in spaces.pages.pool.live && spaces.pages.pool.live[x] == 0
      modifies spaces.pages, spaces.pages.pool, spaces.pages.pool.pmm`s, spaces.pages.pool.pmm.nrFree
      modifies spaces.pages.pool.pmm.bitmap, spaces.pages.pool.pmm.heads, spaces.pages.pool.pmm.frames
      ensures spaces.Valid()
      ensures spaces.pages.pool.live == old(spaces.pages.pool.live) - {DirectoryPage(p), StackPage(p)}
      ensures spaces.pages.pool.free == old(spaces.pages.pool.free) + {DirectoryPage(p), StackPage(p)}
    {
      spaces.DestroyOldUserSpace(p.pageDirectory);
      spaces.pages.Free(p.kernelStack - PAGE_SIZE);
    }

    /** The pages of `process_create_from_module`: all six, or, when it fails, none of them or the
        four that the program's loading took. */
    method TakeSix(binary: nat, size: nat) returns (dir: nat, kstack: nat, ghost extra: seq<nat>)
      requires spaces.Valid() && spaces.mapper.held == map[] && binary % PAGE_SIZE == 0 && size <= PAGE_SIZE
      requires spaces.pages.taken == []
      modifies spaces`memory, spaces.pages`taken, spaces.pages.pool, spaces.pages.pool.pmm`s
      modifies spaces.pages.pool.pmm.nrFree
      modifies spaces.pages.pool.pmm.bitmap, spaces.pages.pool.pmm.heads, spaces.pages.pool.pmm.frames
      modifies spaces.mapper, spaces.mapper.refCount, spaces.mapper.table, spaces.mapper.available
      ensures spaces.Valid() && spaces.mapper.held == map[] && spaces.mapper.peak <= Max(old(spaces.mapper.peak), 2)
      ensures dir % PAGE_SIZE == kstack % PAGE_SIZE == 0
      ensures kstack != 0 <==> |spaces.pages.free0| >= 6
      ensures kstack != 0 ==>
          dir != 0 && |extra| == 4 && spaces.pages.taken == [dir / PAGE_SIZE] + extra + [kstack / PAGE_SIZE]
      ensures kstack == 0 ==> |spaces.pages.taken| == if |spaces.pages.free0| == 5 then 4 else 0
      ensures Same(old(spaces.memory), spaces.memory, spaces.pages.free0)
      ensures kstack != 0 ==>
                && Distinct(dir / PAGE_SIZE, extra)
                && spaces.memory == NewSpace(old(spaces.memory), spaces.mapper.directory[..], dir / PAGE_SIZE,
                    binary / PAGE_SIZE, size, extra)
    {
      kstack, extra := 0, [];
      spaces.pages.Room();
      dir := spaces.CreateUserSpace();
      if dir == 0 { return; }
      kstack, extra := TakeFive(dir, binary, size, old(spaces.memory));
    }

    /** The pages after the directory's; `before` is the memory before that was filled. */
    method TakeFive(dir: nat, binary: nat, size: nat, ghost before: map<nat, Content>)
        returns (kstack: nat, ghost extra: seq<nat>)
      requires spaces.Valid() && spaces.mapper.held == map[] && binary % PAGE_SIZE == 0 && size <= PAGE_SIZE
      requires dir % PAGE_SIZE == 0 && dir != 0 && spaces.pages.taken == [dir / PAGE_SIZE]
      requires spaces.memory == before[dir / PAGE_SIZE := Table(UserDirectory(spaces.mapper.directory[..]))]
      modifies spaces`memory, spaces.pages`taken, spaces.pages.pool, spaces.pages.pool.pmm`s
      modifies spaces.pages.pool.pmm.nrFree
      modifies spaces.pages.pool.pmm.bitmap, spaces.pages.pool.pmm.heads, spaces.pages.pool.pmm.frames
      modifies spaces.mapper, spaces.mapper.refCount, spaces.mapper.table, spaces.mapper.available
      ensures spaces.Valid() && spaces.mapper.held == map[] && spaces.mapper.peak <= Max(old(spaces.mapper.peak), 2)
      ensures kstack % PAGE_SIZE == 0 && (kstack != 0 <==> |spaces.pages.free0| >= 6)
      ensures kstack != 0 ==> |extra| == 4 && spaces.pages.taken == [dir / PAGE_SIZE] + extra + [kstack / PAGE_SIZE]
      ensures kstack == 0 ==> |spaces.pages.taken| == if |spaces.pages.free0| == 5 then 4 else 0
      ensures Same(before, spaces.memory, spaces.pages.free0)
      ensures kstack != 0 ==>
                && Distinct(dir / PAGE_SIZE, extra)
                && spaces.memory == NewSpace(before, spaces.mapper.directory[..], dir / PAGE_SIZE,
                    binary / PAGE_SIZE, size, extra)
    {
      kstack := 0;
      spaces.pages.Room();
      var ok;
      ok, extra := LoadProgram(dir, binary, size, before);
      if ok {
        kstack := TakeStack(dir);
      } else {
        spaces.DestroyUserSpace(dir, 0);
      }
    }

    method LoadProgram(dir: nat, binary: nat, size: nat, ghost before: map<nat, Content>)
        returns (ok: bool, ghost extra: seq<nat>)
      requires spaces.Valid() && spaces.mapper.held == map[] && binary % PAGE_SIZE == 0 && size <= PAGE_SIZE
      requires dir % PAGE_SIZE == 0 && dir != 0 && spaces.pages.taken == [dir / PAGE_SIZE]
      requires spaces.memory == before[dir / PAGE_SIZE := Table(UserDirectory(spaces.mapper.directory[..]))]
      modifies spaces`memory, spaces.pages`taken, spaces.pages.pool, spaces.pages.pool.pmm`s
      modifies spaces.pages.pool.pmm.nrFree
      modifies spaces.pages.pool.pmm.bitmap, spaces.pages.pool.pmm.heads, spaces.pages.pool.pmm.frames
      modifies spaces.mapper, spaces.mapper.refCount, spaces.mapper.table, spaces.mapper.available
      ensures spaces.Valid() && spaces.mapper.held == map[] && spaces.mapper.peak <= Max(old(spaces.mapper.peak), 2)
      ensures (ok <==> |spaces.pages.free0| >= 5) && |extra| == if ok then 4 else 0
      ensures spaces.pages.taken == [dir / PAGE_SIZE] + extra
      ensures Same(before, spaces.memory, spaces.pages.free0)
      ensures ok ==>
                && Distinct(dir / PAGE_SIZE, extra)
                && spaces.memory == NewSpace(before, spaces.mapper.directory[..], dir / PAGE_SIZE,
                    binary / PAGE_SIZE, size, extra)
    {
      spaces.pages.WereFree();
      assert dir / PAGE_SIZE == spaces.pages.taken[0];
      ok, extra := spaces.LoadUserProgram(dir, binary, size);
      if ok {
        spaces.pages.WereFree();
        FilledSpace(before, spaces.mapper.directory[..], dir / PAGE_SIZE, binary / PAGE_SIZE, size, extra,
                    spaces.pages.taken, spaces.pages.free0);
      }
    }

    /** The kernel stack; without it the directory is freed again. */
    method TakeStack(dir: nat) returns (kstack: nat)
      requires spaces.Valid() && dir % PAGE_SIZE == 0 && dir != 0
      requires |spaces.pages.taken| == 5 && spaces.pages.taken[0] == dir / PAGE_SIZE
      modifies spaces.pages`taken, spaces.pages.pool, spaces.pages.pool.pmm`s, spaces.pages.pool.pmm.nrFree
      modifies spaces.pages.pool.pmm.bitmap, spaces.pages.pool.pmm.heads, spaces.pages.pool.pmm.frames
      ensures spaces.Valid() && kstack % PAGE_SIZE == 0
      ensures |spaces.pages.free0| >= 5 && (kstack == 0 <==> |spaces.pages.free0| == 5)
      ensures spaces.pages.taken == if kstack == 0 then Without(old(spaces.pages.taken), 0)
                                    else old(spaces.pages.taken) + [kstack / PAGE_SIZE]
    {
      spaces.pages.Room();
      kstack := spaces.pages.Alloc();
      if kstack == 0 {
        spaces.DestroyUserSpace(dir, 0);
      }
    }

    method SetSlot(slot: nat, p: Proc)
      requires Layout() && spaces.Valid() && slot < MAX_PROCESSES
      modifies processes
      ensures Layout() && spaces.Valid() && processes[..] == old(processes[..])[slot := p]
    {
      processes[slot] := p;
    }

    /** Fill in the control block. */
    method Register(slot: nat, dir: nat, kstack: nat, ghost extra: seq<nat>) returns (pid: nat)
      requires Layout() && spaces.Valid() && slot < MAX_PROCESSES
      modifies this`nextPid, this`rest, processes
      ensures Layout() && spaces.Valid() && pid == old(nextPid)
      ensures processes[slot].pageDirectory == dir && rest[slot] == Elements(extra)
      ensures View() == Registered(old(View()), slot, dir, Elements(extra), kstack, spaces.pages.pool.live,
          spaces.pages.pool.free)
    {
      pid := nextPid;
      SetSlot(slot, Proc(Ready, nextPid, dir, kstack + PAGE_SIZE));
      nextPid := nextPid + 1;
      rest := rest[slot := Elements(extra)];
    }

    /** Book the pages that a failed creation lost. */
    ghost method Fail(w: World)
      requires Layout() && spaces.Valid()
      requires View() == w.(live := spaces.pages.pool.live, free := spaces.pages.pool.free)
      requires TookAll(w.live, w.free, spaces.pages.taken, spaces.pages.pool.live, spaces.pages.pool.free)
      requires |spaces.pages.taken| == 0 || |spaces.pages.taken| == 4
      modifies this`leaked, this`stackFailures
      ensures Layout() && spaces.Valid() && View() == FailedWorld(w, spaces.pages.taken)
    {
      if spaces.pages.taken == [] {
        TookNone(w.live, w.free);
      } else {
        FourLost(w, spaces.pages.taken, spaces.pages.pool.live, spaces.pages.pool.free);
        leaked, stackFailures := leaked + Elements(spaces.pages.taken), stackFailures + 1;
      }
    }

    /** The rest of a creation once its pages have been asked for. */
    method Settle(slot: nat, dir: nat, kstack: nat, ghost extra: seq<nat>, ghost w: World) returns (pid: nat)
      requires Layout() && spaces.Valid() && depth >= 3 && Sound(w, others, depth)
      requires slot == FirstUnused(w.procs, 0) < |w.procs| == |w.rest|
      requires View() == w.(live := spaces.pages.pool.live, free := spaces.pages.pool.free)
      requires TookAll(w.live, w.free, spaces.pages.taken, spaces.pages.pool.live, spaces.pages.pool.free)
      requires dir % PAGE_SIZE == kstack % PAGE_SIZE == 0
      requires kstack != 0 <==> |w.free| >= 6
      requires kstack != 0 ==>
          dir != 0 && |extra| == 4 && spaces.pages.taken == [dir / PAGE_SIZE] + extra + [kstack / PAGE_SIZE]
      requires kstack == 0 ==> |spaces.pages.taken| == if |w.free| == 5 then 4 else 0
      modifies this`nextPid, this`rest, this`leaked, this`stackFailures, processes
      ensures Layout() && spaces.Valid() && Sound(View(), others, depth) && CreateStep(w, View(), true, pid)
      ensures pid != 0 <==> kstack != 0
      ensures pid != 0 ==> processes[slot].pageDirectory == dir && rest[slot] == Elements(extra)
    {
      pid := 0;
      PidPositive(w, others, depth);
      if kstack == 0 {
        FailedSound(w, others, depth, spaces.pages.taken, spaces.pages.pool.live, spaces.pages.pool.free);
        Fail(w);
      } else {
        SixSound(w, others, depth, dir, extra, kstack, spaces.pages.pool.live, spaces.pages.pool.free, slot);
        pid := Register(slot, dir, kstack, extra);
      }
    }

    method Verify(dir: nat)
      requires Valid() && dir % PAGE_SIZE == 0
      modifies spaces.mapper, spaces.mapper.refCount, spaces.mapper.table, spaces.mapper.available
      ensures Valid() && View() == old(View()) && spaces.mapper.peak <= Max(old(spaces.mapper.peak), 3)
      ensures spaces.memory == old(spaces.memory) && spaces.mapper.directory[..] == old(spaces.mapper.directory[..])
      ensures processes[..] == old(processes[..]) && rest == old(rest)
    {
      spaces.CheckMappings(dir);
    }

    method CreateAt(slot: nat, binary: nat, size: nat) returns (pid: nat, dir: nat, ghost ps: seq<nat>)
      requires Valid() && binary % PAGE_SIZE == 0 && size <= PAGE_SIZE
      requires slot == FirstUnused(processes[..], 0) < MAX_PROCESSES
      modifies this`nextPid, this`rest, this`leaked, this`stackFailures, processes
      modifies spaces`memory, spaces.pages, spaces.pages.pool, spaces.pages.pool.pmm`s, spaces.pages.pool.pmm.nrFree
      modifies spaces.pages.pool.pmm.bitmap, spaces.pages.pool.pmm.heads, spaces.pages.pool.pmm.frames
      modifies spaces.mapper, spaces.mapper.refCount, spaces.mapper.table, spaces.mapper.available
      ensures Valid() && CreateStep(old(View()), View(), true, pid)
      ensures spaces.mapper.peak <= Max(old(spaces.mapper.peak), 2) && dir % PAGE_SIZE == 0
      ensures Same(old(spaces.memory), spaces.memory, old(spaces.pages.pool.free))
      ensures pid != 0 ==> HasNewSpace(processes[slot], rest[slot], ps, old(spaces.memory), spaces.memory,
                                       spaces.mapper.directory[..], binary / PAGE_SIZE, size)
    {
      ghost var w := View();
      spaces.pages.Mark();
      var kstack;
      dir, kstack, ps := TakeSix(binary, size);
      spaces.pages.Log();
      pid := Settle(slot, dir, kstack, ps, w);
    }

    /** `process_create_from_module`: a whole process or, short of pages, none; with five free pages
        it fails and loses four of them.  No page that was not free is written. */
    method Create(found: bool, binary: nat, size: nat) returns (pid: nat, ghost ps: seq<nat>)
      requires Valid() && binary % PAGE_SIZE == 0 && size <= PAGE_SIZE
      modifies this`nextPid, this`rest, this`leaked, this`stackFailures, processes
      modifies spaces`memory, spaces.pages, spaces.pages.pool, spaces.pages.pool.pmm`s, spaces.pages.pool.pmm.nrFree
      modifies spaces.pages.pool.pmm.bitmap, spaces.pages.pool.pmm.heads, spaces.pages.pool.pmm.frames
      modifies spaces.mapper, spaces.mapper.refCount, spaces.mapper.table, spaces.mapper.available
      ensures Valid() && CreateStep(old(View()), View(), found, pid)
      ensures spaces.mapper.peak <= Max(old(spaces.mapper.peak), 3)
      ensures Same(old(spaces.memory), spaces.memory, old(spaces.pages.pool.free))
      ensures var slot := FirstUnused(old(processes[..]), 0);
              pid != 0 ==> HasNewSpace(processes[slot], rest[slot], ps, old(spaces.memory), spaces.memory,
                                       spaces.mapper.directory[..], binary / PAGE_SIZE, size)
      ensures pid != 0 && binary / PAGE_SIZE !in old(spaces.pages.pool.free) ==>
                && |ps| == 4
                && Walk(spaces.memory, DirectoryPage(processes[FirstUnused(old(processes[..]), 0)]), 0) == Mapped(ps[0])
                && Copied(old(ContentOf(spaces.memory, binary / PAGE_SIZE)), ContentOf(spaces.memory, ps[0]), size)
      ensures pid == 0 ==>
                (BuddyLists.Blocks(spaces.pages.pool.pmm.s.lists)
                 == old(BuddyLists.Blocks(spaces.pages.pool.pmm.s.lists))
                 <==> !LosesPages(old(View()), found))
    {
      PidPositive(View(), others, depth);
      ghost var w, before := View(), spaces.memory;
      pid, ps := TryCreate(found, binary, size);
      if pid == 0 {
        FailedLists(found);
      } else if binary / PAGE_SIZE !in w.free {
        CreatedCode(w, View(), found, pid, ps, before, spaces.memory, spaces.mapper.directory[..],
                    binary / PAGE_SIZE, size);
      }
    }

    /** What a failed creation does to the free lists. */
    twostate lemma FailedLists(found: bool)
      requires old(Valid()) && Valid() && old(nextPid) > 0 && CreateStep(old(View()), View(), found, 0)
      ensures BuddyLists.Blocks(spaces.pages.pool.pmm.s.lists) == old(BuddyLists.Blocks(spaces.pages.pool.pmm.s.lists))
              <==> !LosesPages(old(View()), found)
    {
      if LosesPages(old(View()), found) {
        spaces.pages.pool.OtherLists();
      } else {
        spaces.pages.pool.SameLists();
      }
    }

    method TryCreate(found: bool, binary: nat, size: nat) returns (pid: nat, ghost ps: seq<nat>)
      requires Valid() && binary % PAGE_SIZE == 0 && size <= PAGE_SIZE
      modifies this`nextPid, this`rest, this`leaked, this`stackFailures, processes
      modifies spaces`memory, spaces.pages, spaces.pages.pool, spaces.pages.pool.pmm`s, spaces.pages.pool.pmm.nrFree
      modifies spaces.pages.pool.pmm.bitmap, spaces.pages.pool.pmm.heads, spaces.pages.pool.pmm.frames
      modifies spaces.mapper, spaces.mapper.refCount, spaces.mapper.table, spaces.mapper.available
      ensures Valid() && CreateStep(old(View()), View(), found, pid)
      ensures spaces.mapper.peak <= Max(old(spaces.mapper.peak), 3)
      ensures Same(old(spaces.memory), spaces.memory, old(spaces.pages.pool.free))
      ensures var slot := FirstUnused(old(processes[..]), 0);
              pid != 0 ==> HasNewSpace(processes[slot], rest[slot], ps, old(spaces.memory), spaces.memory,
                                       spaces.mapper.directory[..], binary / PAGE_SIZE, size)
    {
      pid, ps := 0, [];
      if !found { return; }
      var slot := FindUnused();
      if slot == MAX_PROCESSES { return; }
      var dir;
      pid, dir, ps := CreateAt(slot, binary, size);
      if pid != 0 {
        Verify(dir);
      }
    }
  }
}
