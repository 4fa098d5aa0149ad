/** The position kept in a descriptor and the position of its handle: reading moves
    both, seeking only the second.  When exactly they agree. */
module FilePositions {
  import opened Bytes
  import opened OpenFiles
  import opened OpenFileRuns
  import opened FileStreams

  /** Every open descriptor on a file keeps the position of its handle. */
  ghost predicate InStep(files: seq<File>, t: Tables)
  {
    forall fd, f | On(files, t, fd, f) :: Keeps(files, t, fd, f)
  }

  ghost predicate Keeps(files: seq<File>, t: Tables, fd: int, f: nat)
    requires On(files, t, fd, f)
  {
    t.fds[fd].pos == Position(files, t, fd, f)
  }

  // ----- one operation on one descriptor

  /** `vfs_read` takes a result of 2^31 or more for negative, and then moves the handle only. */
  predicate ShortRead(pos: uint32, size: uint32, count: uint32)
  {
    pos >= size || count < TWO31 || (pos + count < TWO32 && size - pos < TWO31)
  }

  lemma ReadIsShort(pos: uint32, size: uint32, count: uint32)
    ensures ReadCount(pos, size, count) < TWO31 <==> ShortRead(pos, size, count)
  {
  }

  lemma ReadKeeps(files: seq<File>, t: Tables, fd: int, f: nat, count: uint32, keys: seq<Byte>)
    requires Sized(files) && Inv(files, t) && On(files, t, fd, f) && Keeps(files, t, fd, f)
    ensures HandlesInRange(files, t.ram)
    ensures var t' := Read(files, t, fd, count, keys).1;
            && On(files, t', fd, f)
            && (Keeps(files, t', fd, f)
                <==> ReadDenied(t.fds[fd].flags) || ShortRead(t.fds[fd].pos, |files[f].data|, count))
  {
    ReadIsShort(t.fds[fd].pos, |files[f].data|, count);
    ReadMoves(files, t, fd, count, keys);
    MovedKeeps(files, t, Read(files, t, fd, count, keys).1, fd);
  }

  /** A seek is refused, names the position it is at, or goes beyond the end from the end: then, and only
      then, the two positions still agree. */
  predicate SeekStays(pos: uint32, size: uint32, offset: int, whence: int)
    requires pos <= size
  {
    !(0 <= whence <= 2)
    || var w := Word(Target(pos, size, offset, whence)); w == pos || (w > size && pos == size)
  }

  lemma SeekKeeps(files: seq<File>, t: Tables, fd: int, f: nat, offset: int, whence: int)
    requires Sized(files) && Inv(files, t) && On(files, t, fd, f) && Keeps(files, t, fd, f)
    ensures HandlesInRange(files, t.ram)
    ensures var t' := Seek(files, t, fd, offset, whence).1;
            && On(files, t', fd, f)
            && (Keeps(files, t', fd, f) <==> SeekStays(t.fds[fd].pos, |files[f].data|, offset, whence))
  {
    InRange(files, t);
  }

  // ----- every operation

  /** What an operation may do to the descriptor it is on, if that is on a file. */
  ghost predicate Steady(files: seq<File>, t: Tables, op: Op)
    requires Sized(files)
  {
    match op
    case DoRead(fd, count, _) =>
      forall f: nat | On(files, t, fd, f) ::
        ReadDenied(t.fds[fd].flags) || ShortRead(Position(files, t, fd, f), |files[f].data|, count)
    case DoSeek(fd, offset, whence) =>
      forall f: nat | On(files, t, fd, f) ::
        SeekStays(Position(files, t, fd, f), |files[f].data|, offset, whence)
    case _ => true
  }

  /** A descriptor on a file after an open was on it before, or is at position 0 on both sides. */
  lemma OpenKeeps(files: seq<File>, t: Tables, path: Option<string>, flags: int, fd: int, f: nat)
    requires Sized(files) && Inv(files, t) && On(files, Open(files, t, path, flags).1, fd, f)
    ensures On(files, t, fd, f) || Keeps(files, Open(files, t, path, flags).1, fd, f)
  {
    OpenMeaning(files, t, path, flags);
    var (r, t') := Open(files, t, path, flags);
    if r >= 0 && fd != r {
      var k, h: nat :| Opened(files, t, t', r, k, h, flags);
      assert Proper(t, fd);
    }
  }

  /** No other operation puts a descriptor on a file. */
  lemma NoNewFile(files: seq<File>, t: Tables, op: Op, fd: int, f: nat)
    requires Sized(files) && Inv(files, t) && !op.DoOpen?
    requires HandlesInRange(files, t.ram) && On(files, Step(files, t, op).1, fd, f)
    ensures On(files, t, fd, f)
  {
    var t' := Step(files, t, op).1;
    assert Proper(t, fd);
    match op
    case DoRead(fd2, count, keys) =>
      if Live(t, fd2) { ReadMoves(files, t, fd2, count, keys); }
      assert InFile(files, t.ram[t'.fds[fd].handle]);
    case DoSeek(fd2, offset, whence) =>
      if Live(t, fd2) { SeekMoves(files, t, fd2, offset, whence); }
      assert InFile(files, t.ram[t'.fds[fd].handle]);
    case _ =>
  }

  /** An operation keeps the descriptor `fd` in step, if it is on a file before and after. */
  lemma OneInStep(files: seq<File>, t: Tables, op: Op, fd: int, f: nat)
    requires Sized(files) && Inv(files, t) && Steady(files, t, op) && On(files, t, fd, f) && Keeps(files, t, fd, f)
    requires HandlesInRange(files, t.ram) && On(files, Step(files, t, op).1, fd, f)
    ensures Keeps(files, Step(files, t, op).1, fd, f)
  {
    if op.DoRead? && op.fd == fd {
      ReadKeeps(files, t, fd, f, op.count, op.keys);
    } else if op.DoSeek? && op.fd == fd {
      SeekKeeps(files, t, fd, f, op.offset, op.whence);
    } else if (op.DoClose? || op.DoWrite?) && op.fd == fd {
      assert Proper(t, fd);
    } else {
      OthersStay(files, t, op, fd, f);
    }
  }

  /** Where all positions agree, an operation keeps them so if and only if it is steady. */
  lemma StepInStep(files: seq<File>, t: Tables, op: Op)
    requires Sized(files) && Inv(files, t) && InStep(files, t)
    ensures HandlesInRange(files, t.ram)
    ensures InStep(files, Step(files, t, op).1) <==> Steady(files, t, op)
  {
    InRange(files, t);
    var t' := Step(files, t, op).1;
    if Steady(files, t, op) {
      forall fd, f | On(files, t', fd, f)
        ensures Keeps(files, t', fd, f)
      {
        if op.DoOpen? {
          OpenKeeps(files, t, op.path, op.flags, fd, f);
        } else {
          NoNewFile(files, t, op, fd, f);
        }
        if On(files, t, fd, f) {
          OneInStep(files, t, op, fd, f);
        }
      }
    } else {
      NotSteady(files, t, op);
    }
  }

  lemma NotSteady(files: seq<File>, t: Tables, op: Op)
    requires Sized(files) && Inv(files, t) && InStep(files, t) && !Steady(files, t, op)
    ensures HandlesInRange(files, t.ram) && !InStep(files, Step(files, t, op).1)
  {
    InRange(files, t);
    if op.DoRead? {
      var f: nat :| On(files, t, op.fd, f) && !ReadDenied(t.fds[op.fd].flags)
                    && !ShortRead(Position(files, t, op.fd, f), |files[f].data|, op.count);
      ReadKeeps(files, t, op.fd, f, op.count, op.keys);
    } else {
      var f: nat :| On(files, t, op.fd, f)
                    && !SeekStays(Position(files, t, op.fd, f), |files[f].data|, op.offset, op.whence);
      SeekKeeps(files, t, op.fd, f, op.offset, op.whence);
    }
  }

  // ----- runs

  /** Over every run: the positions agree all the way if and only if every operation is steady. */
  lemma {:induction false} RunInStep(files: seq<File>, ts: seq<Tables>, ops: seq<Op>, k: nat)
    requires Run(files, ts, ops) && InStep(files, ts[0]) && k < |ts|
    ensures (forall j | 0 <= j <= k :: InStep(files, ts[j]))
            <==> (forall j | 0 <= j < k :: Steady(files, ts[j], ops[j]))
  {
    if k > 0 {
      RunInStep(files, ts, ops, k - 1);
      RunKeeps(files, ts, ops, k - 1);
      assert Linked(files, ts, ops, k - 1);
      if InStep(files, ts[k - 1]) {
        StepInStep(files, ts[k - 1], ops[k - 1]);
      }
    }
  }

  // ----- two runs without a seek after which the positions differ

  /** The tables after opening the only file of the list. */
  function OneOpen(): Tables
  {
    var t := Initial();
    t.(fds := t.fds[3 := OpenFile(Some(RamFs), 0, 0, 1, 1)], ram := t.ram[0 := Reading(0, 0)])
  }

  lemma OpensTheFile(data: seq<Byte>)
    ensures Open([File("a", data, 0)], Initial(), Some("a"), 1) == (3, OneOpen())
  {
    var t := Initial();
    assert FindFs(t.fsList, "ramfs") == Some(RamFs) by {
      assert t.fsList[1..] == [Registered("ramfs", RamFs)];
    }
    assert t.ram[0] == Free && FreeRam(t.ram, 0) == 0 && FreeFd(t.fds, 3) == 3;
    assert FindFile([File("a", data, 0)], "a") == 0;
  }

  /** A file of 0x9000_0000 bytes, read in one go. */
  lemma LongReadLosesStep(data: seq<Byte>)
    requires |data| == 0x9000_0000
    ensures var files := [File("a", data, 0)];
            var t1 := Open(files, Initial(), Some("a"), 1).1;
            && Inv(files, Initial()) && InStep(files, Initial()) && HandlesInRange(files, t1.ram)
            && !InStep(files, Read(files, t1, 3, 0x9000_0000, []).1)
  {
    var files := [File("a", data, 0)];
    InitialInv(files);
    OpensTheFile(data);
    StepKeeps(files, Initial(), DoOpen(Some("a"), 1));
    assert On(files, OneOpen(), 3, 0);
    ReadKeeps(files, OneOpen(), 3, 0, 0x9000_0000, []);
  }

  /** A file of 20 bytes, of which 10 are read, and then 2^32 - 1 more are asked for. */
  lemma WrappedReadLosesStep(data: seq<Byte>)
    requires |data| == 20
    ensures var files := [File("a", data, 0)];
            var t1 := Open(files, Initial(), Some("a"), 1).1;
            && Inv(files, Initial()) && InStep(files, Initial()) && HandlesInRange(files, t1.ram)
            && var t2 := Read(files, t1, 3, 10, []).1;
            && InStep(files, t2) && HandlesInRange(files, t2.ram)
            && !InStep(files, Read(files, t2, 3, 0xFFFF_FFFF, []).1)
  {
    var files := [File("a", data, 0)];
    var op := DoRead(3, 10, []);
    InitialInv(files);
    OpensTheFile(data);
    StepKeeps(files, Initial(), DoOpen(Some("a"), 1));
    StepInStep(files, Initial(), DoOpen(Some("a"), 1));
    assert On(files, OneOpen(), 3, 0);
    StepInStep(files, OneOpen(), op);
    StepKeeps(files, OneOpen(), op);
    var t2 := Read(files, OneOpen(), 3, 10, []).1;
    assert On(files, t2, 3, 0) && Position(files, t2, 3, 0) == 10;
    ReadKeeps(files, t2, 3, 0, 0xFFFF_FFFF, []);
  }
}
