/** What holds of the open-file tables over every run: descriptors and private
    handles correspond one to one, and a descriptor reads its file as a stream. */
module OpenFileRuns {
  import opened Bytes
  import opened OpenFiles

  /** Descriptor `fd` is open on handle `h` of the file system `k`. */
  predicate Points(t: Tables, fd: int, k: FsType, h: int)
  {
    3 <= fd < |t.fds| && t.fds[fd].refCount == 1 && t.fds[fd].fs == Some(k) && t.fds[fd].handle == h
  }

  predicate Occupied(t: Tables, k: FsType, h: int)
  {
    match k
    case RamFs => 0 <= h < |t.ram| && t.ram[h] != Free
    case DevFs => 0 <= h < |t.dev| && t.dev[h] != 0
  }

  /** What one descriptor looks like: closed and blank, a standard one, or open on an occupied handle. */
  ghost predicate Proper(t: Tables, fd: nat)
    requires fd < |t.fds|
  {
    var f := t.fds[fd];
    && f.refCount <= 1 && (f.refCount == 0 ==> f == CLOSED)
    && (fd < 3 ==> f.fs.None?)
    && (fd >= 3 && f.refCount == 1 ==> f.fs.Some? && Occupied(t, f.fs.value, f.handle))
  }

  ghost predicate Pointed(t: Tables, k: FsType, h: int)
  {
    exists fd :: Points(t, fd, k, h)
  }

  ghost predicate InFile(files: seq<File>, h: RamHandle)
  {
    h != Free ==> h.file < |files| && h.pos <= |files[h.file].data|
  }

  ghost predicate Inv(files: seq<File>, t: Tables)
  {
    && |t.fds| == |t.ram| == |t.dev| == MAX_OPEN_FILES
    && (forall fd | 0 <= fd < MAX_OPEN_FILES :: Proper(t, fd))
    && (forall fd1, fd2, k, h | Points(t, fd1, k, h) && Points(t, fd2, k, h) :: fd1 == fd2)
    && (forall k, h | Occupied(t, k, h) :: Pointed(t, k, h))
    && (forall h | 0 <= h < MAX_OPEN_FILES :: InFile(files, t.ram[h]) && t.dev[h] <= 3)
  }

  /** The correspondence: a handle is occupied exactly when one descriptor, and only one, is open on it. */
  lemma OneToOne(files: seq<File>, t: Tables, k: FsType, h: int)
    requires Inv(files, t)
    ensures Occupied(t, k, h) <==> exists fd ::
        Points(t, fd, k, h) && forall other | Points(t, other, k, h) :: other == fd
  {
    if Occupied(t, k, h) {
      assert Pointed(t, k, h);
    } else {
      forall fd
        ensures !Points(t, fd, k, h)
      {
        if 0 <= fd < MAX_OPEN_FILES {
          assert Proper(t, fd);
        }
      }
    }
  }

  // ----- there are fewer descriptors than handles

  /** The descriptors of the first `n` handles, if those are all occupied. */
  lemma {:induction false} Owners(files: seq<File>, t: Tables, k: FsType, n: nat) returns (owners: set<int>)
    requires Inv(files, t) && forall h | 0 <= h < n :: Occupied(t, k, h)
    ensures |owners| == n
    ensures forall fd | fd in owners :: 3 <= fd < MAX_OPEN_FILES && t.fds[fd].fs == Some(k) && t.fds[fd].handle < n
  {
    if n == 0 { return {}; }
    owners := Owners(files, t, k, n - 1);
    assert Occupied(t, k, n - 1) && Pointed(t, k, n - 1);
    var fd :| Points(t, fd, k, n - 1);
    owners := owners + {fd};
  }

  lemma {:induction false} RangeSize(s: set<int>, a: int, b: int)
    requires a <= b && forall x | x in s :: a <= x < b
    ensures |s| <= b - a
    decreases b - a
  {
    if a == b {
      assert forall x :: x !in s;
    } else {
      RangeSize(s - {b - 1}, a, b - 1);
    }
  }

  /** So each file system always has a free handle. */
  lemma NeverFull(files: seq<File>, t: Tables)
    requires Inv(files, t)
    ensures FreeRam(t.ram, 0) < MAX_OPEN_FILES && FreeDev(t.dev, 0) < MAX_OPEN_FILES
  {
    if FreeRam(t.ram, 0) == MAX_OPEN_FILES {
      var owners := Owners(files, t, RamFs, MAX_OPEN_FILES);
      RangeSize(owners, 3, MAX_OPEN_FILES);
    }
    if FreeDev(t.dev, 0) == MAX_OPEN_FILES {
      var owners := Owners(files, t, DevFs, MAX_OPEN_FILES);
      RangeSize(owners, 3, MAX_OPEN_FILES);
    }
  }

  // ----- one operation

  /** `Open` in one formula: it fails without any change, and for want of a descriptor exactly when all
      29 are open; or it opens the lowest descriptor, on a handle that was free. */
  lemma OpenMeaning(files: seq<File>, t: Tables, path: Option<string>, flags: int)
    requires Inv(files, t)
    ensures var (r, t') := Open(files, t, path, flags);
            && (r < 0 ==> t' == t)
            && (r == EMFILE <==>
                && path.Some? && Resolve(t.fsList, path.value).Some?
                && forall fd | 3 <= fd < MAX_OPEN_FILES :: Live(t, fd))
            && (r >= 0 ==>
                  && 3 <= r < MAX_OPEN_FILES && !Live(t, r) && (forall fd | 3 <= fd < r :: Live(t, fd))
                  && exists k, h :: Opened(files, t, t', r, k, h, flags))
  {
    NeverFull(files, t);
    var fd := FreeFd(t.fds, 3);
    assert fd < MAX_OPEN_FILES ==> !Live(t, fd);
    var (r, t') := Open(files, t, path, flags);
    if r >= 0 {
      var k := Resolve(t.fsList, path.value).value;
      assert Opened(files, t, t', r, k, t'.fds[r].handle, flags);
    }
  }

  /** `t'` is `t` with `fd` open on the handle `h` of `k`, both free before. */
  ghost predicate Opened(files: seq<File>, t: Tables, t': Tables, fd: int, k: FsType, h: nat, flags: int)
  {
    && 3 <= fd < |t.fds| && t.fds[fd].refCount == 0 && !Occupied(t, k, h)
    && t'.fds == t.fds[fd := OpenFile(Some(k), h, 0, flags, 1)] && t'.fsList == t.fsList
    && match k
       case RamFs => h < |t.ram| && t'.dev == t.dev && exists f: nat ::
           f < |files| && t'.ram == t.ram[h := Reading(f, 0)]
       case DevFs =>
           && h < |t.dev| && t'.ram == t.ram && |t'.dev| == |t.dev| && 1 <= t'.dev[h] <= 3
           && t'.dev == t.dev[h := t'.dev[h]]
  }

  lemma OpenedOccupies(files: seq<File>, t: Tables, t': Tables, fd: int, k: FsType, h: nat, flags: int, k2: FsType,
      h2: int)
    requires Opened(files, t, t', fd, k, h, flags)
    ensures Occupied(t', k2, h2) <==> Occupied(t, k2, h2) || (k2 == k && h2 == h)
  {
  }

  lemma OpenedKeeps(files: seq<File>, t: Tables, t': Tables, fd: int, k: FsType, h: nat, flags: int)
    requires Inv(files, t) && Opened(files, t, t', fd, k, h, flags)
    ensures Inv(files, t')
  {
    forall i | 0 <= i < MAX_OPEN_FILES
      ensures Proper(t', i)
    {
      assert Proper(t, i);
      if t.fds[i].fs.Some? { OpenedOccupies(files, t, t', fd, k, h, flags, t.fds[i].fs.value, t.fds[i].handle); }
      OpenedOccupies(files, t, t', fd, k, h, flags, k, h);
    }
    forall fd1, fd2, k2, h2 | Points(t', fd1, k2, h2) && Points(t', fd2, k2, h2)
      ensures fd1 == fd2
    {
      assert Proper(t, fd1) && Proper(t, fd2);
      assert fd1 != fd ==> Points(t, fd1, k2, h2);
      assert fd2 != fd ==> Points(t, fd2, k2, h2);
    }
    forall k2, h2 | Occupied(t', k2, h2)
      ensures Pointed(t', k2, h2)
    {
      OpenedOccupies(files, t, t', fd, k, h, flags, k2, h2);
      if k2 == k && h2 == h {
        assert Points(t', fd, k2, h2);
      } else {
        assert Pointed(t, k2, h2);
        var fd2 :| Points(t, fd2, k2, h2);
        assert Points(t', fd2, k2, h2);
      }
    }
  }

  /** `t'` is `t` with `fd`, which was open on the handle `h` of `k`, closed. */
  ghost predicate Closed(t: Tables, t': Tables, fd: int, k: FsType, h: nat)
  {
    && Points(t, fd, k, h) && Occupied(t, k, h)
    && t' == match k
             case RamFs => t.(fds := t.fds[fd := CLOSED], ram := t.ram[h := Free])
             case DevFs => t.(fds := t.fds[fd := CLOSED], dev := t.dev[h := 0])
  }

  /** `Close` frees the descriptor and its handle; a standard descriptor has no handle. */
  lemma CloseMeaning(files: seq<File>, t: Tables, fd: int)
    requires Inv(files, t)
    ensures var (r, t') := Close(t, fd);
            if !Live(t, fd) then r == EBADF && t' == t
            else r == 0 && !Live(t', fd)
                 && if fd < 3 then t' == t.(fds := t.fds[fd := CLOSED])
                    else t.fds[fd].fs.Some? && Closed(t, t', fd, t.fds[fd].fs.value, t.fds[fd].handle)
  {
    if 0 <= fd < MAX_OPEN_FILES {
      assert Proper(t, fd);
    }
  }

  lemma ClosedKeeps(files: seq<File>, t: Tables, t': Tables, fd: int, k: FsType, h: nat)
    requires Inv(files, t) && Closed(t, t', fd, k, h)
    ensures Inv(files, t')
  {
    forall i | 0 <= i < MAX_OPEN_FILES
      ensures Proper(t', i)
    {
      assert Proper(t, i);
      assert i != fd && i >= 3 && t.fds[i].refCount == 1 ==> Points(t, i, t.fds[i].fs.value, t.fds[i].handle);
    }
    forall fd1, fd2, k2, h2 | Points(t', fd1, k2, h2) && Points(t', fd2, k2, h2)
      ensures fd1 == fd2
    {
      assert Points(t, fd1, k2, h2) && Points(t, fd2, k2, h2);
    }
    forall k2, h2 | Occupied(t', k2, h2)
      ensures Pointed(t', k2, h2)
    {
      assert Occupied(t, k2, h2) && Pointed(t, k2, h2);
      var fd2 :| Points(t, fd2, k2, h2);
      assert Points(t', fd2, k2, h2);
    }
  }

  lemma OpenedClose(files: seq<File>, t: Tables, t': Tables, fd: int, k: FsType, h: nat, flags: int)
    requires Inv(files, t) && Opened(files, t, t', fd, k, h, flags)
    ensures Close(t', fd) == (0, t)
  {
    assert Proper(t, fd);
    assert t'.fds[fd := CLOSED] == t.fds;
    match k
    case RamFs => assert t'.ram[h := Free] == t.ram;
    case DevFs => assert t'.dev[h := 0] == t.dev;
  }

  /** Closing what has just been opened restores both tables. */
  lemma OpenClose(files: seq<File>, t: Tables, path: Option<string>, flags: int)
    requires Inv(files, t)
    ensures var (r, t') := Open(files, t, path, flags); r >= 0 ==> Close(t', r) == (0, t)
  {
    OpenMeaning(files, t, path, flags);
    var (r, t') := Open(files, t, path, flags);
    if r >= 0 {
      var k, h: nat :| Opened(files, t, t', r, k, h, flags);
      OpenedClose(files, t, t', r, k, h, flags);
    }
  }

  /** The handle a descriptor is open on differs from `t` to `t'` in its position only. */
  ghost predicate Moved(files: seq<File>, t: Tables, t': Tables, fd: int)
  {
    && 0 <= fd < |t.fds| == |t'.fds| && |t.ram| == |t'.ram| && t'.dev == t.dev && t'.fsList == t.fsList
    && t'.fds == t.fds[fd := t.fds[fd].(pos := t'.fds[fd].pos)]
    && (t'.ram == t.ram
        || exists h: nat :: h < |t.ram| && Points(t, fd, RamFs, h) && t.ram[h] != Free && t'.ram[h] != Free
                       && t'.ram == t.ram[h := Reading(t.ram[h].file, t'.ram[h].pos)] && InFile(files, t'.ram[h]))
  }

  lemma MovedKeeps(files: seq<File>, t: Tables, t': Tables, fd: int)
    requires Inv(files, t) && Moved(files, t, t', fd) && t.fds[fd].refCount == 1
    ensures Inv(files, t')
  {
    forall i | 0 <= i < MAX_OPEN_FILES
      ensures Proper(t', i)
    {
      assert Proper(t, i);
    }
    forall i, k, h
      ensures Points(t', i, k, h) <==> Points(t, i, k, h)
      ensures Occupied(t', k, h) <==> Occupied(t, k, h)
    {
    }
    forall k, h | Occupied(t', k, h)
      ensures Pointed(t', k, h)
    {
      assert Pointed(t, k, h);
      var fd2 :| Points(t, fd2, k, h);
      assert Points(t', fd2, k, h);
    }
  }

  lemma ReadMoves(files: seq<File>, t: Tables, fd: int, count: uint32, keys: seq<Byte>)
    requires Sized(files) && Inv(files, t) && Live(t, fd)
    ensures HandlesInRange(files, t.ram)
    ensures Moved(files, t, Read(files, t, fd, count, keys).1, fd)
  {
    assert Proper(t, fd);
    InRange(files, t);
    var t' := Read(files, t, fd, count, keys).1;
    var h := t.fds[fd].handle;
    if t'.ram != t.ram {
      assert Points(t, fd, RamFs, h) && InFile(files, t.ram[h]) && InFile(files, t'.ram[h]);
    }
  }

  lemma InRange(files: seq<File>, t: Tables)
    requires Inv(files, t)
    ensures HandlesInRange(files, t.ram)
  {
    forall h | 0 <= h < |t.ram| && t.ram[h] != Free
      ensures t.ram[h].file < |files|
    {
      assert InFile(files, t.ram[h]);
    }
  }

  lemma SeekMoves(files: seq<File>, t: Tables, fd: int, offset: int, whence: int)
    requires Sized(files) && Inv(files, t) && Live(t, fd)
    ensures HandlesInRange(files, t.ram)
    ensures Moved(files, t, Seek(files, t, fd, offset, whence).1, fd)
  {
    assert Proper(t, fd);
    InRange(files, t);
    var t' := Seek(files, t, fd, offset, whence).1;
    var h := t.fds[fd].handle;
    if t'.ram != t.ram {
      assert Points(t, fd, RamFs, h) && InFile(files, t.ram[h]) && InFile(files, t'.ram[h]);
    }
  }

  // ----- runs

  datatype Op =
    | DoRegister(name: Option<string>, ops: Option<FsType>, memory: bool)
    | DoOpen(path: Option<string>, flags: int)
    | DoClose(fd: int)
    | DoRead(fd: int, count: uint32, keys: seq<Byte>)
    | DoWrite(fd: int, count: uint32)
    | DoSeek(fd: int, offset: int, whence: int)

  function Step(files: seq<File>, t: Tables, op: Op): (int, Tables)
    requires Sized(files) && HandlesInRange(files, t.ram) && |t.fds| >= 3
  {
    match op
    case DoRegister(name, ops, memory) => Register(t, name, ops, memory)
    case DoOpen(path, flags) => Open(files, t, path, flags)
    case DoClose(fd) => Close(t, fd)
    case DoRead(fd, count, keys) => Read(files, t, fd, count, keys)
    case DoWrite(fd, count) => Write(t, fd, count)
    case DoSeek(fd, offset, whence) => Seek(files, t, fd, offset, whence)
  }

  lemma RegisterKeeps(files: seq<File>, t: Tables, list: seq<Registered>)
    requires Inv(files, t)
    ensures Inv(files, t.(fsList := list))
  {
    var t' := t.(fsList := list);
    forall i | 0 <= i < MAX_OPEN_FILES
      ensures Proper(t', i)
    {
      assert Proper(t, i);
    }
    forall fd1, fd2, k, h | Points(t', fd1, k, h) && Points(t', fd2, k, h)
      ensures fd1 == fd2
    {
      assert Points(t, fd1, k, h) && Points(t, fd2, k, h);
    }
    forall k, h | Occupied(t', k, h)
      ensures Pointed(t', k, h)
    {
      assert Occupied(t, k, h) && Pointed(t, k, h);
      var fd :| Points(t, fd, k, h);
      assert Points(t', fd, k, h);
    }
  }

  lemma StandardClosedKeeps(files: seq<File>, t: Tables, fd: int)
    requires Inv(files, t) && 0 <= fd < 3
    ensures Inv(files, t.(fds := t.fds[fd := CLOSED]))
  {
    var t' := t.(fds := t.fds[fd := CLOSED]);
    forall i | 0 <= i < MAX_OPEN_FILES
      ensures Proper(t', i)
    {
      assert Proper(t, i);
    }
    forall i, k, h
      ensures Points(t', i, k, h) <==> Points(t, i, k, h)
      ensures Occupied(t', k, h) <==> Occupied(t, k, h)
    {
    }
    forall k, h | Occupied(t', k, h)
      ensures Pointed(t', k, h)
    {
      assert Pointed(t, k, h);
      var fd2 :| Points(t, fd2, k, h);
      assert Points(t', fd2, k, h);
    }
  }

  lemma WriteMoves(files: seq<File>, t: Tables, fd: int, count: uint32)
    requires Inv(files, t) && Live(t, fd)
    ensures Moved(files, t, Write(t, fd, count).1, fd)
  {
    assert Proper(t, fd);
  }

  lemma StepKeeps(files: seq<File>, t: Tables, op: Op)
    requires Sized(files) && Inv(files, t)
    ensures HandlesInRange(files, t.ram) && Inv(files, Step(files, t, op).1)
  {
    InRange(files, t);
    var t' := Step(files, t, op).1;
    match op
    case DoRegister(_, _, _) =>
      RegisterKeeps(files, t, t'.fsList);
    case DoOpen(path, flags) =>
      OpenMeaning(files, t, path, flags);
      var r := Open(files, t, path, flags).0;
      if r >= 0 {
        var k, h: nat :| Opened(files, t, t', r, k, h, flags);
        OpenedKeeps(files, t, t', r, k, h, flags);
      }
    case DoClose(fd) =>
      CloseMeaning(files, t, fd);
      if Live(t, fd) {
        if fd < 3 {
          StandardClosedKeeps(files, t, fd);
        } else {
          ClosedKeeps(files, t, t', fd, t.fds[fd].fs.value, t.fds[fd].handle);
        }
      }
    case DoRead(fd, count, keys) =>
      if Live(t, fd) {
        ReadMoves(files, t, fd, count, keys);
        assert Proper(t, fd);
        MovedKeeps(files, t, t', fd);
      }
    case DoWrite(fd, count) =>
      if Live(t, fd) {
        WriteMoves(files, t, fd, count);
        assert Proper(t, fd);
        MovedKeeps(files, t, t', fd);
      }
    case DoSeek(fd, offset, whence) =>
      if Live(t, fd) {
        SeekMoves(files, t, fd, offset, whence);
        assert Proper(t, fd);
        MovedKeeps(files, t, t', fd);
      }
  }

  /** The tables a sequence of operations passes through. */
  ghost predicate Run(files: seq<File>, ts: seq<Tables>, ops: seq<Op>)
  {
    && Sized(files) && |ts| == |ops| + 1 && Inv(files, ts[0])
    && forall k | 0 <= k < |ops| :: Linked(files, ts, ops, k)
  }

  ghost predicate Linked(files: seq<File>, ts: seq<Tables>, ops: seq<Op>, k: nat)
    requires Sized(files) && |ts| == |ops| + 1 && k < |ops|
  {
    HandlesInRange(files, ts[k].ram) && |ts[k].fds| >= 3 && ts[k + 1] == Step(files, ts[k], ops[k]).1
  }

  /** Every reachable state is in order; in particular no position is ever beyond the end of its file. */
  lemma {:induction false} RunKeeps(files: seq<File>, ts: seq<Tables>, ops: seq<Op>, k: nat)
    requires Run(files, ts, ops) && k < |ts|
    ensures Inv(files, ts[k])
  {
    if k > 0 {
      RunKeeps(files, ts, ops, k - 1);
      assert Linked(files, ts, ops, k - 1);
      StepKeeps(files, ts[k - 1], ops[k - 1]);
    }
  }

  /** In every run the file systems' own limits are out of reach: an open fails with EMFILE only for
      want of a descriptor, although each private table has 32 entries. */
  lemma RunNeverFull(files: seq<File>, ts: seq<Tables>, ops: seq<Op>, k: nat, path: string, flags: int)
    requires Run(files, ts, ops) && k < |ts|
    ensures |ts[k].ram| == |ts[k].dev| == MAX_OPEN_FILES
    ensures RamOpen(files, ts[k].ram, path, flags).0 != EMFILE && DevOpen(ts[k].dev, path).0 != EMFILE
  {
    RunKeeps(files, ts, ops, k);
    NeverFull(files, ts[k]);
  }

  lemma InitialInv(files: seq<File>)
    ensures Inv(files, Initial())
  {
    var t := Initial();
    forall fd | 0 <= fd < MAX_OPEN_FILES
      ensures Proper(t, fd)
    {
    }
  }
}
