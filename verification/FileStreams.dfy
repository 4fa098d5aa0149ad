/** A descriptor on a file of the RAM file system as a stream of bytes. */
module FileStreams {
  import opened Bytes
  import opened OpenFiles
  import opened OpenFileRuns

  // ----- words

  /** `ramfs_read` copies what is left, up to the count, exactly when the sum of the position and the
      count is one word; otherwise it copies beyond the end of the file. */
  lemma ReadExact(pos: uint32, size: uint32, count: uint32)
    requires pos < size
    ensures ReadCount(pos, size, count) == Min(count, size - pos) <==> pos + count < TWO32
    ensures pos + count >= TWO32 ==> ReadCount(pos, size, count) > size - pos
  {
  }

  /** A read that returns 0 has reached the end, and only such a read does. */
  lemma ReadEnd(pos: uint32, size: uint32, count: uint32)
    requires pos <= size && count > 0
    ensures ReadCount(pos, size, count) == 0 <==> pos == size
  {
  }

  function Target(pos: uint32, size: uint32, offset: int, whence: int): int
  {
    (if whence == 0 then 0 else if whence == 1 then pos else size) + offset
  }

  predicate IsOffset(offset: int)
  {
    -TWO31 <= offset < TWO31
  }

  /** `ramfs_seek` goes to the target if that is in the file, and else to the end, exactly when the
      target is below 2^32 and, if negative, wraps to the end of the file or beyond. */
  lemma SeekLands(pos: uint32, size: uint32, offset: int, whence: int)
    requires pos <= size && IsOffset(offset) && 0 <= whence <= 2
    ensures var target := Target(pos, size, offset, whence);
            SeekTo(pos, size, offset, whence) == (if 0 <= target <= size then target else size)
            <==> target < TWO32 && (target < 0 ==> target + TWO32 >= size)
  {
    var target := Target(pos, size, offset, whence);
    assert target >= TWO32 ==> Word(target) == target - TWO32;
    assert target < 0 ==> Word(target) == target + TWO32;
  }

  /** For files below 2 GiB it always does, and the result is the position. */
  lemma SmallFileSeek(pos: uint32, size: uint32, offset: int, whence: int)
    requires pos <= size < TWO31 && IsOffset(offset) && 0 <= whence <= 2
    ensures var target := Target(pos, size, offset, whence);
            SeekTo(pos, size, offset, whence) == (if 0 <= target <= size then target else size)
    ensures Int32(SeekTo(pos, size, offset, whence)) == SeekTo(pos, size, offset, whence)
  {
    SeekLands(pos, size, offset, whence);
  }

  /** Inputs for which the words wrap: a seek before the start of a file of 2^32 - 2 bytes lands in it,
      and a read of 2^32 - 1 bytes from position 10 of a file of 20 copies them all. */
  lemma WordsWrap()
    ensures Target(0, 0xFFFF_FFFE, -3, 0) < 0 && SeekTo(0, 0xFFFF_FFFE, -3, 0) == 0xFFFF_FFFD
    ensures ReadCount(10, 20, 0xFFFF_FFFF) == 0xFFFF_FFFF
  {
  }

  // ----- streams

  /** Descriptor `fd` is open on the file `f`. */
  ghost predicate On(files: seq<File>, t: Tables, fd: int, f: nat)
  {
    && 3 <= fd < |t.fds| && Points(t, fd, RamFs, t.fds[fd].handle)
    && t.fds[fd].handle < |t.ram| && t.ram[t.fds[fd].handle].Reading? && t.ram[t.fds[fd].handle].file == f
    && f < |files| && t.ram[t.fds[fd].handle].pos <= |files[f].data|
  }

  ghost function Position(files: seq<File>, t: Tables, fd: int, f: nat): (pos: nat)
    requires On(files, t, fd, f)
    ensures pos <= |files[f].data|
  {
    t.ram[t.fds[fd].handle].pos
  }

  /** The operation leaves `fd` open, does not seek it, and does not read beyond a word. */
  predicate Reads(op: Op, fd: int, pos: nat)
  {
    && !(op.DoClose? && op.fd == fd) && !(op.DoSeek? && op.fd == fd)
    && (op.DoRead? && op.fd == fd ==> pos + op.count < TWO32)
  }

  /** The bytes that an operation delivers through `fd`: as many as a read copies, from where it is. */
  ghost function Chunk(files: seq<File>, t: Tables, op: Op, fd: int, f: nat): seq<Byte>
    requires Sized(files) && On(files, t, fd, f)
  {
    var data, pos := files[f].data, Position(files, t, fd, f);
    if op.DoRead? && op.fd == fd && !ReadDenied(t.fds[fd].flags) && pos + ReadCount(pos, |data|, op.count) <= |data|
    then data[pos..pos + ReadCount(pos, |data|, op.count)] else []
  }

  /** Nothing done through other descriptors moves this one. */
  lemma OthersStay(files: seq<File>, t: Tables, op: Op, fd: int, f: nat)
    requires Sized(files) && Inv(files, t) && On(files, t, fd, f)
    requires (op.DoClose? || op.DoRead? || op.DoWrite? || op.DoSeek?) ==> op.fd != fd
    ensures HandlesInRange(files, t.ram)
    ensures var t' := Step(files, t, op).1;
            On(files, t', fd, f) && Position(files, t', fd, f) == Position(files, t, fd, f) && t'.fds[fd] == t.fds[fd]
  {
    InRange(files, t);
    match op
    case DoClose(fd2) =>
      if Live(t, fd2) {
        assert Proper(t, fd2);
        Apart(files, t, fd, fd2);
      }
    case DoRead(fd2, _, _) =>
      if Live(t, fd2) {
        assert Proper(t, fd2);
        Apart(files, t, fd, fd2);
      }
    case DoSeek(fd2, _, _) =>
      if Live(t, fd2) {
        assert Proper(t, fd2);
        Apart(files, t, fd, fd2);
      }
    case _ =>
  }

  lemma Apart(files: seq<File>, t: Tables, fd: int, fd2: int)
    requires Inv(files, t) && 3 <= fd < |t.fds| && 0 <= fd2 < |t.fds| && fd != fd2
    requires Points(t, fd, RamFs, t.fds[fd].handle)
    ensures fd2 >= 3 && t.fds[fd2].refCount == 1 && t.fds[fd2].fs == Some(RamFs) ==>
        t.fds[fd2].handle != t.fds[fd].handle
  {
    assert fd2 >= 3 && t.fds[fd2].refCount == 1 && t.fds[fd2].fs == Some(RamFs) ==>
        Points(t, fd2, RamFs, t.fds[fd2].handle);
  }

  lemma ReadStream(files: seq<File>, t: Tables, op: Op, fd: int, f: nat)
    requires Sized(files) && HandlesInRange(files, t.ram) && |t.fds| >= 3 && op.DoRead? && op.fd == fd
    requires On(files, t, fd, f) && Reads(op, fd, Position(files, t, fd, f))
    ensures var t' := Step(files, t, op).1;
            var bytes, pos := Chunk(files, t, op, fd, f), Position(files, t, fd, f);
            && On(files, t', fd, f) && t'.fds[fd].flags == t.fds[fd].flags
            && Position(files, t', fd, f) == pos + |bytes| && bytes == files[f].data[pos..pos + |bytes|]
  {
    var pos, size := Position(files, t, fd, f), |files[f].data|;
    if pos < size {
      ReadExact(pos, size, op.count);
    }
  }

  /** One operation: the descriptor moves by what it delivers. */
  lemma StepStream(files: seq<File>, t: Tables, op: Op, fd: int, f: nat)
    requires Sized(files) && Inv(files, t) && On(files, t, fd, f) && Reads(op, fd, Position(files, t, fd, f))
    ensures HandlesInRange(files, t.ram)
    ensures var t' := Step(files, t, op).1;
            var bytes, pos := Chunk(files, t, op, fd, f), Position(files, t, fd, f);
            && On(files, t', fd, f) && t'.fds[fd].flags == t.fds[fd].flags
            && Position(files, t', fd, f) == pos + |bytes| && bytes == files[f].data[pos..pos + |bytes|]
  {
    InRange(files, t);
    if op.DoRead? && op.fd == fd {
      ReadStream(files, t, op, fd, f);
    } else if op.DoWrite? && op.fd == fd {
      assert Proper(t, fd);
    } else {
      OthersStay(files, t, op, fd, f);
    }
  }

  /** All that the first `k` operations of a run deliver through `fd`. */
  ghost function Delivered(files: seq<File>, ts: seq<Tables>, ops: seq<Op>, fd: int, f: nat, k: nat): seq<Byte>
    requires Sized(files) && k <= |ops| <= |ts|
  {
    if k == 0 then []
    else Delivered(files, ts, ops, fd, f, k - 1)
         + (if On(files, ts[k - 1], fd, f) then Chunk(files, ts[k - 1], ops[k - 1], fd, f) else [])
  }

  /** Through the first `k` operations `fd` stays open, is not sought, and reads within a word. */
  ghost predicate OnlyReads(files: seq<File>, ts: seq<Tables>, ops: seq<Op>, fd: int, f: nat, k: nat)
    requires k <= |ops| <= |ts|
  {
    k == 0
    || (OnlyReads(files, ts, ops, fd, f, k - 1)
        && (On(files, ts[k - 1], fd, f) ==> Reads(ops[k - 1], fd, Position(files, ts[k - 1], fd, f))))
  }

  lemma LinkStream(files: seq<File>, ts: seq<Tables>, ops: seq<Op>, fd: int, f: nat, k: nat)
    requires Run(files, ts, ops) && k < |ops| && On(files, ts[k], fd, f)
    requires Reads(ops[k], fd, Position(files, ts[k], fd, f))
    ensures var bytes, pos := Chunk(files, ts[k], ops[k], fd, f), Position(files, ts[k], fd, f);
            && On(files, ts[k + 1], fd, f) && ts[k + 1].fds[fd].flags == ts[k].fds[fd].flags
            && Position(files, ts[k + 1], fd, f) == pos + |bytes| && bytes == files[f].data[pos..pos + |bytes|]
  {
    RunKeeps(files, ts, ops, k);
    assert Linked(files, ts, ops, k);
    StepStream(files, ts[k], ops[k], fd, f);
  }

  lemma Joined(data: seq<Byte>, pos: nat, mid: nat, end: nat, a: seq<Byte>, b: seq<Byte>)
    requires pos <= mid <= end <= |data| && a == data[pos..mid] && b == data[mid..end]
    ensures a + b == data[pos..end]
  {
  }

  /** The stream law: whatever else goes on in between, through other descriptors and on the same file,
      what the reads of one descriptor deliver is, put together, the stretch of the file from where it
      was to where it is. */
  lemma {:induction false} RunStream(files: seq<File>, ts: seq<Tables>, ops: seq<Op>, fd: int, f: nat, k: nat)
    requires Run(files, ts, ops) && On(files, ts[0], fd, f) && k <= |ops| && OnlyReads(files, ts, ops, fd, f, k)
    ensures On(files, ts[k], fd, f) && ts[k].fds[fd].flags == ts[0].fds[fd].flags
    ensures Position(files, ts[0], fd, f) <= Position(files, ts[k], fd, f)
    ensures Delivered(files, ts, ops, fd, f, k) == files[f].data[Position(files, ts[0], fd, f)..Position(files,
        ts[k], fd, f)]
  {
    if k > 0 {
      RunStream(files, ts, ops, fd, f, k - 1);
      LinkStream(files, ts, ops, fd, f, k - 1);
      var chunk := Chunk(files, ts[k - 1], ops[k - 1], fd, f);
      var start, pos := Position(files, ts[0], fd, f), Position(files, ts[k - 1], fd, f);
      Joined(files[f].data, start, pos, pos + |chunk|, Delivered(files, ts, ops, fd, f, k - 1), chunk);
    }
  }

  /** Reading until a read returns 0 delivers the rest of the file, however it is cut into chunks: the
      `k`-th operation, a read, returns 0 exactly when all of it had been delivered before. */
  lemma {:induction false} ReadToEnd(files: seq<File>, ts: seq<Tables>, ops: seq<Op>, fd: int, f: nat, k: nat)
    requires Run(files, ts, ops) && On(files, ts[0], fd, f) && k < |ops| && OnlyReads(files, ts, ops, fd, f, k)
    requires ops[k].DoRead? && ops[k].fd == fd && ops[k].count > 0 && !ReadDenied(ts[0].fds[fd].flags)
    ensures HandlesInRange(files, ts[k].ram) && |ts[k].fds| >= 3
    ensures Step(files, ts[k], ops[k]).0 == 0
            <==> Delivered(files, ts, ops, fd, f, k) == files[f].data[Position(files, ts[0], fd, f)..]
  {
    RunStream(files, ts, ops, fd, f, k);
    assert Linked(files, ts, ops, k);
    ReadEnd(Position(files, ts[k], fd, f), |files[f].data|, ops[k].count);
  }
}
