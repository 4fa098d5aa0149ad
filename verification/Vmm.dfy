/** User address spaces: taking their pages from the page allocator and filling
    them through temporary mappings. */
module Vmm {
  import opened PagePool
  import opened Paging
  import TempMapping
  import opened PageLog
  import opened PageTables

  function Max(a: nat, b: nat): nat
  {
    if a >= b then a else b
  }

  class AddressSpaces {
    const pages: LoggedPool
    const mapper: TempMapping.Mapper
    var memory: map<nat, Content>     // physical pages by page frame number

    ghost predicate Valid()
      reads this, pages, pages.pool, pages.pool.pmm, pages.pool.pmm.heads, pages.pool.pmm.frames
      reads pages.pool.pmm.nrFree, pages.pool.pmm.bitmap
      reads mapper, mapper.refCount, mapper.directory, mapper.table, mapper.available
    {
      && pages.Valid() && mapper.Valid()
      && {pages.pool.pmm.nrFree as object, pages.pool.pmm.bitmap}
           !! {mapper.refCount as object, mapper.table, mapper.directory, mapper.available}
    }

    /** Over the pages and slots there are, and whatever the memory holds. */
    constructor (pages: LoggedPool, mapper: TempMapping.Mapper, memory: map<nat, Content>)
      requires pages.Valid() && mapper.Valid()
      requires {pages.pool.pmm.nrFree as object, pages.pool.pmm.bitmap}
                 !! {mapper.refCount as object, mapper.table, mapper.directory, mapper.available}
      ensures Valid() && this.pages == pages && this.mapper == mapper && this.memory == memory
    {
      this.pages, this.mapper, this.memory := pages, mapper, memory;
    }

    /** The physical page behind a temporary address, read from the page table. */
    method PageAt(va: nat) returns (page: nat)
      requires mapper.Valid() && TempMapping.InSlots(va) && va % PAGE_SIZE == 0 && TempMapping.SlotOf(va) in mapper.held
      requires mapper.held[TempMapping.SlotOf(va)] % PAGE_SIZE == 0
      ensures page == mapper.held[TempMapping.SlotOf(va)] / PAGE_SIZE
    {
      mapper.EntryOf(va);
      page := mapper.table[TempMapping.TableIndex(va)] / PAGE_SIZE;
    }

    /** `vmm_create_user_space`: a directory whose lower part is empty and whose kernel part is the current one's. */
    method CreateUserSpace() returns (dir: nat)
      requires Valid() && mapper.held == map[]
      modifies this`memory, pages`taken, pages.pool, pages.pool.pmm`s, pages.pool.pmm.nrFree
      modifies pages.pool.pmm.bitmap, pages.pool.pmm.heads, pages.pool.pmm.frames
      modifies mapper, mapper.refCount, mapper.table, mapper.available
      ensures Valid() && mapper.held == map[] && mapper.peak <= Max(old(mapper.peak), 1) && dir % PAGE_SIZE == 0
      ensures dir == 0 <==> |pages.free0| == |old(pages.taken)|
      ensures pages.taken == if dir == 0 then old(pages.taken) else old(pages.taken) + [dir / PAGE_SIZE]
      ensures memory == if dir == 0 then old(memory)
                        else old(memory)[dir / PAGE_SIZE := Table(UserDirectory(mapper.directory[..]))]
    {
      dir := pages.Alloc();
      if dir != 0 {
        FillDirectory(dir);
      }
    }

    /** Clear the page at `dir` through a temporary mapping and copy the kernel's entries into it. */
    method FillDirectory(dir: nat)
      requires mapper.Valid() && mapper.held == map[] && dir % PAGE_SIZE == 0
      modifies this`memory, mapper, mapper.refCount, mapper.table, mapper.available
      ensures mapper.Valid() && mapper.held == map[] && mapper.peak <= Max(old(mapper.peak), 1)
      ensures memory == old(memory)[dir / PAGE_SIZE := Table(UserDirectory(mapper.directory[..]))]
    {
      var va := mapper.Map(dir);
      var page := PageAt(va);
      var e := Zeros();
      memory := memory[page := Table(e)];
      for i := 768 to 1024
        modifies this`memory
        invariant |e| == 1024 && memory == old(memory)[page := Table(e)]
        invariant forall k | 0 <= k < 1024 :: e[k] == if 768 <= k < i then mapper.directory[k] else 0
      {
        e := e[i := mapper.directory[i]];
        memory := memory[page := Table(e)];
      }
      assert e == UserDirectory(mapper.directory[..]);
      mapper.Unmap(va);
    }

    /** `vmm_destroy_user_space` of the `i`-th page in the log, or of 0. */
    method DestroyUserSpace(dir: nat, ghost i: nat)
      requires Valid() && dir % PAGE_SIZE == 0
      requires dir != 0 ==> i < |pages.taken| && pages.taken[i] == dir / PAGE_SIZE
      modifies pages`taken, pages.pool, pages.pool.pmm`s, pages.pool.pmm.nrFree, pages.pool.pmm.bitmap
      modifies pages.pool.pmm.heads, pages.pool.pmm.frames
      ensures Valid()
      ensures pages.taken == if dir == 0 then old(pages.taken) else Without(old(pages.taken), i)
    {
      if dir == 0 { return; }
      pages.GiveBack(dir, i);
    }

    /** The same for a directory that was taken before the log was begun. */
    method DestroyOldUserSpace(dir: nat)
      requires Valid() && dir % PAGE_SIZE == 0
      requires dir != 0 ==> dir / PAGE_SIZE in pages.pool.live && pages.pool.live[dir / PAGE_SIZE] == 0
      modifies pages, pages.pool, pages.pool.pmm`s, pages.pool.pmm.nrFree, pages.pool.pmm.bitmap
      modifies pages.pool.pmm.heads, pages.pool.pmm.frames
      ensures Valid()
      ensures dir == 0 ==> pages.pool.live == old(pages.pool.live) && pages.pool.free == old(pages.pool.free)
      ensures dir != 0 ==> pages.pool.live == old(pages.pool.live) - {dir / PAGE_SIZE}
                           && pages.pool.free == old(pages.pool.free) + {dir / PAGE_SIZE}
    {
      if dir == 0 { return; }
      pages.Free(dir);
    }

    /** Clear the page at `table` through a temporary mapping and set one entry of it. */
    method FillTable(table: nat, index: nat, entry: nat)
      requires mapper.Valid() && mapper.held.Keys == {0} && table % PAGE_SIZE == 0 && index < 1024
      modifies this`memory, mapper, mapper.refCount, mapper.table, mapper.available
      ensures mapper.Valid() && mapper.held == old(mapper.held) && mapper.peak <= Max(old(mapper.peak), 2)
      ensures memory == old(memory)[table / PAGE_SIZE := Table(Zeros()[index := entry])]
    {
      var va := mapper.Map(table);
      var page := PageAt(va);
      memory := memory[page := Table(Zeros())];
      memory := memory[page := Table(Zeros()[index := entry])];
      mapper.Unmap(va);
    }

    /** Copy the first `size` bytes of the page at `src` to the page at `dst`. */
    method CopyPage(dst: nat, src: nat, size: nat)
      requires mapper.Valid() && mapper.held == map[] && dst % PAGE_SIZE == 0 && src % PAGE_SIZE == 0
      requires size <= PAGE_SIZE
      modifies this`memory, mapper, mapper.refCount, mapper.table, mapper.available
      ensures mapper.Valid() && mapper.held == map[] && mapper.peak <= Max(old(mapper.peak), 2)
      ensures memory == old(memory)[dst / PAGE_SIZE := Image(BytesOf(ContentOf(old(memory), src / PAGE_SIZE), size))]
      ensures Copied(ContentOf(old(memory), src / PAGE_SIZE), ContentOf(memory, dst / PAGE_SIZE), size)
    {
      var from := mapper.Map(src);
      var to := mapper.Map(dst);
      var srcPage := PageAt(from);
      var dstPage := PageAt(to);
      CopyBytes(dstPage, srcPage, size);
      ReleaseTwo(from, to);
    }

    /** Release the first two slots, which are all that are held. */
    method ReleaseTwo(from: nat, to: nat)
      requires mapper.Valid() && mapper.held.Keys == {0, 1}
      requires from == TempMapping.SlotAddr(0) && to == TempMapping.SlotAddr(1)
      modifies mapper, mapper.refCount, mapper.table, mapper.available
      ensures mapper.Valid() && mapper.held == map[] && mapper.peak == old(mapper.peak)
    {
      TempMapping.SlotGeometry(0);
      TempMapping.SlotGeometry(1);
      mapper.Unmap(from);
      mapper.Unmap(to);
    }

    /** The `memcpy` of `size` bytes. */
    method CopyBytes(dst: nat, src: nat, size: nat)
      modifies this`memory
      ensures memory == old(memory)[dst := Image(BytesOf(ContentOf(old(memory), src), size))]
      ensures Copied(ContentOf(old(memory), src), ContentOf(memory, dst), size)
    {
      memory := memory[dst := Image(BytesOf(ContentOf(memory, src), size))];
    }

    /** `vmm_load_user_program` once its four pages are there: enter the tables in the directory at
        `pageDir`, the pages in the tables, and copy the program. */
    method Populate(pageDir: nat, temp: nat, binary: nat, size: nat, code: nat, stack: nat, codeTable: nat,
        stackTable: nat)
      requires IsTable(ContentOf(memory, pageDir / PAGE_SIZE))
      requires mapper.Valid() && mapper.held == map[0 := pageDir] && temp == TempMapping.SlotAddr(0)
      requires pageDir % PAGE_SIZE == 0 && binary % PAGE_SIZE == 0 && size <= PAGE_SIZE
      requires code % PAGE_SIZE == 0 && stack % PAGE_SIZE == 0 && codeTable % PAGE_SIZE == 0
      requires stackTable % PAGE_SIZE == 0
      modifies this`memory, mapper, mapper.refCount, mapper.table, mapper.available
      ensures mapper.Valid() && mapper.held == map[] && mapper.peak <= Max(old(mapper.peak), 2)
      ensures memory == Populated(old(memory), pageDir / PAGE_SIZE, binary / PAGE_SIZE, size,
                                  PagesOf4(code, stack, codeTable, stackTable))
    {
      TempMapping.SlotGeometry(0);
      EntryOfAddress(code);
      EntryOfAddress(stack);
      EntryOfAddress(codeTable);
      EntryOfAddress(stackTable);
      var dirPage := PageAt(temp);
      memory := memory[dirPage := Table(ContentOf(memory, dirPage).entries[0 := codeTable + 7])];
      FillTable(codeTable, 0, code + 7);
      dirPage := PageAt(temp);
      memory := memory[dirPage := Table(ContentOf(memory, dirPage).entries[0x3FE := stackTable + 7])];
      FillTable(stackTable, 0x3FF, stack + 7);
      mapper.Unmap(temp);
      CopyPage(code, binary, size);
    }

    /** `vmm_load_user_program`: take four pages and fill them, or take none.  The pages are those of
        the code, the stack and their two tables. */
    method LoadUserProgram(pageDir: nat, binary: nat, size: nat)
      returns (ok: bool, ghost ps: seq<nat>)
      requires IsTable(ContentOf(memory, pageDir / PAGE_SIZE))
      requires Valid() && mapper.held == map[] && pageDir % PAGE_SIZE == 0 && binary % PAGE_SIZE == 0
      requires size <= PAGE_SIZE
      modifies this`memory, pages`taken, pages.pool, pages.pool.pmm`s, pages.pool.pmm.nrFree
      modifies pages.pool.pmm.bitmap, pages.pool.pmm.heads, pages.pool.pmm.frames
      modifies mapper, mapper.refCount, mapper.table, mapper.available
      ensures Valid() && mapper.held == map[] && mapper.peak <= Max(old(mapper.peak), 2)
      ensures ok <==> |pages.free0| >= |old(pages.taken)| + 4
      ensures pages.taken == old(pages.taken) + ps && |ps| == if ok then 4 else 0
      ensures memory == if ok then Populated(old(memory), pageDir / PAGE_SIZE, binary / PAGE_SIZE, size,
          ps) else old(memory)
    {
      pages.Room();
      ghost var n := |pages.taken|;
      ok, ps := false, [];
      var codePage := pages.Alloc();
      if codePage == 0 { return; }
      ok, ps := LoadStack(pageDir, binary, size, codePage, n);
    }

    /** From the stack page on; the code page is in the log at `n`. */
    method LoadStack(pageDir: nat, binary: nat, size: nat, code: nat, ghost n: nat)
        returns (ok: bool, ghost ps: seq<nat>)
      requires IsTable(ContentOf(memory, pageDir / PAGE_SIZE))
      requires Valid() && mapper.held == map[] && pageDir % PAGE_SIZE == 0 && binary % PAGE_SIZE == 0
      requires size <= PAGE_SIZE
      requires code % PAGE_SIZE == 0 && n + 1 == |pages.taken| && pages.taken[n] == code / PAGE_SIZE
      modifies this`memory, pages`taken, pages.pool, pages.pool.pmm`s, pages.pool.pmm.nrFree
      modifies pages.pool.pmm.bitmap, pages.pool.pmm.heads, pages.pool.pmm.frames
      modifies mapper, mapper.refCount, mapper.table, mapper.available
      ensures Valid() && mapper.held == map[] && mapper.peak <= Max(old(mapper.peak), 2)
      ensures ok <==> |pages.free0| >= n + 4
      ensures pages.taken == old(pages.taken[..n]) + ps && |ps| == if ok then 4 else 0
      ensures memory == if ok then Populated(old(memory), pageDir / PAGE_SIZE, binary / PAGE_SIZE, size,
          ps) else old(memory)
    {
      pages.Room();
      ok, ps := false, [];
      var stackPage := pages.Alloc();
      if stackPage == 0 {
        pages.GiveBack(code, n);
        return;
      }
      ok, ps := LoadTables(pageDir, binary, size, code, stackPage, n);
    }

    /** From the first temporary mapping on; the code and stack pages are in the log from `n` on. */
    method LoadTables(pageDir: nat, binary: nat, size: nat, code: nat, stack: nat, ghost n: nat)
      returns (ok: bool, ghost ps: seq<nat>)
      requires IsTable(ContentOf(memory, pageDir / PAGE_SIZE))
      requires Valid() && mapper.held == map[] && pageDir % PAGE_SIZE == 0 && binary % PAGE_SIZE == 0
      requires size <= PAGE_SIZE
      requires code % PAGE_SIZE == 0 && stack % PAGE_SIZE == 0
      requires n + 2 == |pages.taken| && pages.taken[n..] == [code / PAGE_SIZE, stack / PAGE_SIZE]
      modifies this`memory, pages`taken, pages.pool, pages.pool.pmm`s, pages.pool.pmm.nrFree
      modifies pages.pool.pmm.bitmap, pages.pool.pmm.heads, pages.pool.pmm.frames
      modifies mapper, mapper.refCount, mapper.table, mapper.available
      ensures Valid() && mapper.held == map[] && mapper.peak <= Max(old(mapper.peak), 2)
      ensures ok <==> |pages.free0| >= n + 4
      ensures pages.taken == old(pages.taken[..n]) + ps && |ps| == if ok then 4 else 0
      ensures memory == if ok then Populated(old(memory), pageDir / PAGE_SIZE, binary / PAGE_SIZE, size,
          ps) else old(memory)
    {
      var temp := mapper.Map(pageDir);
      ok, ps := LoadCodeTable(pageDir, temp, binary, size, code, stack, n);
    }

    /** The table of the code, and then the rest. */
    method LoadCodeTable(pageDir: nat, temp: nat, binary: nat, size: nat, code: nat, stack: nat, ghost n: nat)
      returns (ok: bool, ghost ps: seq<nat>)
      requires IsTable(ContentOf(memory, pageDir / PAGE_SIZE))
      requires Valid() && mapper.held == map[0 := pageDir] && temp == TempMapping.SlotAddr(0)
      requires pageDir % PAGE_SIZE == 0 && binary % PAGE_SIZE == 0 && size <= PAGE_SIZE
      requires code % PAGE_SIZE == 0 && stack % PAGE_SIZE == 0
      requires n + 2 == |pages.taken| && pages.taken[n..] == [code / PAGE_SIZE, stack / PAGE_SIZE]
      modifies this`memory, pages`taken, pages.pool, pages.pool.pmm`s, pages.pool.pmm.nrFree
      modifies pages.pool.pmm.bitmap, pages.pool.pmm.heads, pages.pool.pmm.frames
      modifies mapper, mapper.refCount, mapper.table, mapper.available
      ensures Valid() && mapper.held == map[] && mapper.peak <= Max(old(mapper.peak), 2)
      ensures ok <==> |pages.free0| >= n + 4
      ensures pages.taken == old(pages.taken[..n]) + ps && |ps| == if ok then 4 else 0
      ensures memory == if ok then Populated(old(memory), pageDir / PAGE_SIZE, binary / PAGE_SIZE, size,
          ps) else old(memory)
    {
      pages.Room();
      ok, ps := false, [];
      var table := pages.Alloc();
      if table == 0 {
        Abort(temp, pageDir, code, stack, 0, n);
        return;
      }
      ok, ps := LoadStackTable(pageDir, temp, binary, size, code, stack, table, n);
    }

    /** The table of the stack, and then the contents. */
    method LoadStackTable(pageDir: nat, temp: nat, binary: nat, size: nat, code: nat, stack: nat, codeTable: nat,
        ghost n: nat)
      returns (ok: bool, ghost ps: seq<nat>)
      requires IsTable(ContentOf(memory, pageDir / PAGE_SIZE))
      requires Valid() && mapper.held == map[0 := pageDir] && temp == TempMapping.SlotAddr(0)
      requires pageDir % PAGE_SIZE == 0 && binary % PAGE_SIZE == 0 && size <= PAGE_SIZE
      requires code % PAGE_SIZE == 0 && stack % PAGE_SIZE == 0 && codeTable % PAGE_SIZE == 0 && codeTable != 0
      requires n + 3 == |pages.taken|
      requires pages.taken[n..] == [code / PAGE_SIZE, stack / PAGE_SIZE, codeTable / PAGE_SIZE]
      modifies this`memory, pages`taken, pages.pool, pages.pool.pmm`s, pages.pool.pmm.nrFree
      modifies pages.pool.pmm.bitmap, pages.pool.pmm.heads, pages.pool.pmm.frames
      modifies mapper, mapper.refCount, mapper.table, mapper.available
      ensures Valid() && mapper.held == map[] && mapper.peak <= Max(old(mapper.peak), 2)
      ensures ok <==> |pages.free0| != n + 3
      ensures pages.taken == old(pages.taken[..n]) + ps && |ps| == if ok then 4 else 0
      ensures memory == if ok then Populated(old(memory), pageDir / PAGE_SIZE, binary / PAGE_SIZE, size,
          ps) else old(memory)
    {
      ok, ps := false, [];
      ghost var was := pages.taken;
      var table := pages.Alloc();
      if table == 0 {
        Abort(temp, pageDir, code, stack, codeTable, n);
        return;
      }
      ps := PagesOf4(code, stack, codeTable, table);
      assert was + [table / PAGE_SIZE] == was[..n] + ps by {
        assert was == was[..n] + was[n..];
      }
      Populate(pageDir, temp, binary, size, code, stack, codeTable, table);
      ok := true;
    }

    /** The cleanup once the directory is mapped: unmap it and free the code page, the stack page and,
        if there is one already, the table of the code. */
    method Abort(temp: nat, ghost pageDir: nat, code: nat, stack: nat, codeTable: nat, ghost n: nat)
      requires Valid() && mapper.held == map[0 := pageDir] && temp == TempMapping.SlotAddr(0)
      requires code % PAGE_SIZE == 0 && stack % PAGE_SIZE == 0 && codeTable % PAGE_SIZE == 0
      requires n + 2 <= |pages.taken|
      requires pages.taken[n..] == [code / PAGE_SIZE, stack / PAGE_SIZE]
                                   + (if codeTable == 0 then [] else [codeTable / PAGE_SIZE])
      modifies pages`taken, pages.pool, pages.pool.pmm`s, pages.pool.pmm.nrFree, pages.pool.pmm.bitmap
      modifies pages.pool.pmm.heads, pages.pool.pmm.frames
      modifies mapper, mapper.refCount, mapper.table, mapper.available
      ensures Valid() && mapper.held == map[] && mapper.peak == old(mapper.peak)
      ensures pages.taken == old(pages.taken[..n])
    {
      Release(temp, pageDir);
      GiveAll(code, stack, codeTable, n);
    }

    method GiveAll(code: nat, stack: nat, codeTable: nat, ghost n: nat)
      requires pages.Valid()
      requires code % PAGE_SIZE == 0 && stack % PAGE_SIZE == 0 && codeTable % PAGE_SIZE == 0
      requires n + 2 <= |pages.taken|
      requires pages.taken[n..] == [code / PAGE_SIZE, stack / PAGE_SIZE]
                                   + (if codeTable == 0 then [] else [codeTable / PAGE_SIZE])
      modifies pages`taken, pages.pool, pages.pool.pmm`s, pages.pool.pmm.nrFree, pages.pool.pmm.bitmap
      modifies pages.pool.pmm.heads, pages.pool.pmm.frames
      ensures pages.Valid() && pages.taken == old(pages.taken[..n])
    {
      ghost var was := pages.taken;
      assert was == was[..n] + was[n..];
      pages.GiveBack(code, n);
      assert pages.taken == was[..n] + was[n + 1..];
      pages.GiveBack(stack, n);
      assert pages.taken == was[..n] + was[n + 2..];
      if codeTable != 0 {
        pages.GiveBack(codeTable, n);
      }
    }

    /** The mapping check that process creation ends with: it looks at the directory, at the table of the
        code and, at one fixed address, at the code page, holding up to three slots. */
    method CheckMappings(pageDir: nat)
      requires mapper.Valid() && mapper.held == map[] && pageDir % PAGE_SIZE == 0
      modifies mapper, mapper.refCount, mapper.table, mapper.available
      ensures mapper.Valid() && mapper.held == map[] && mapper.peak <= Max(old(mapper.peak), 3)
    {
      var tempDir := mapper.Map(pageDir);
      var entry := FirstEntry(pageDir / PAGE_SIZE);
      if entry % 2 == 1 {
        CheckTable(entry / PAGE_SIZE);
      }
      mapper.Unmap(tempDir);
    }

    /** The first word of a page; anything, where the page is not known to be a table. */
    method FirstEntry(page: nat) returns (entry: nat)
      ensures IsTable(ContentOf(memory, page)) ==> entry == ContentOf(memory, page).entries[0]
    {
      entry := *;
      var c := ContentOf(memory, page);
      if IsTable(c) {
        entry := c.entries[0];
      }
    }

    method CheckTable(page: nat)
      requires mapper.Valid() && mapper.held.Keys == {0}
      modifies mapper, mapper.refCount, mapper.table, mapper.available
      ensures mapper.Valid() && mapper.held == old(mapper.held) && mapper.peak <= Max(old(mapper.peak), 3)
    {
      var tempTable := mapper.Map(page * PAGE_SIZE);
      var entry := FirstEntry(page);
      if entry % 2 == 1 && entry / PAGE_SIZE * PAGE_SIZE == 0x210_1000 {
        CheckCode();
      }
      mapper.Unmap(tempTable);
    }

    method CheckCode()
      requires mapper.Valid() && mapper.held.Keys == {0, 1}
      modifies mapper, mapper.refCount, mapper.table, mapper.available
      ensures mapper.Valid() && mapper.held == old(mapper.held) && mapper.peak <= Max(old(mapper.peak), 3)
    {
      var tempPage := mapper.Map(0x210_1000);
      mapper.Unmap(tempPage);
    }

    method Release(temp: nat, ghost pageDir: nat)
      requires mapper.Valid() && mapper.held == map[0 := pageDir] && temp == TempMapping.SlotAddr(0)
      modifies mapper, mapper.refCount, mapper.table, mapper.available
      ensures mapper.Valid() && mapper.held == map[] && mapper.peak == old(mapper.peak)
    {
      TempMapping.SlotGeometry(0);
      mapper.Unmap(temp);
    }
  }

  /** The pages at four addresses. */
  function PagesOf4(a: nat, b: nat, c: nat, d: nat): (ps: seq<nat>)
    ensures |ps| == 4
  {
    [a / PAGE_SIZE, b / PAGE_SIZE, c / PAGE_SIZE, d / PAGE_SIZE]
  }

  lemma EntryOfAddress(a: nat)
    requires a % PAGE_SIZE == 0
    ensures UserEntry(a / PAGE_SIZE) == a + 7
  {
  }
}
