/** What every call on the virtual file system answers, said in the caller's terms: names and device
    paths as they are written, and counts and positions as numbers. */
module FileResults {
  import opened Bytes
  import opened OpenFiles
  import opened OpenFileRuns
  import opened FileStreams

  // ----- names

  /** `path` is `k` slashes and then something that does not begin with one. */
  ghost predicate Slashes(path: string, k: nat)
  {
    && k <= |path| && (forall i | 0 <= i < k :: path[i] == '/')
    && (k < |path| ==> path[k] != '/')
  }

  /** The file `f` is the first one whose name is the path without its leading slashes. */
  ghost predicate Names(files: seq<File>, path: string, f: nat)
  {
    && f < |files|
    && exists k: nat ::
         Slashes(path, k) && files[f].name == path[k..] && forall j | 0 <= j < f :: files[j].name != path[k..]
  }

  lemma {:induction false} SlashesSkipped(path: string) returns (k: nat)
    ensures Slashes(path, k) && SkipSlashes(path) == path[k..]
  {
    k := 0;
    if path != [] && path[0] == '/' {
      k := SlashesSkipped(path[1..]);
      k := k + 1;
    }
  }

  /** The number of leading slashes is determined by the path. */
  lemma SlashesUnique(path: string, j: nat, k: nat)
    requires Slashes(path, j) && Slashes(path, k)
    ensures j == k
  {
  }

  /** The search finds the file that the path names, and none exactly if it names none. */
  lemma FindMeaning(files: seq<File>, path: string)
    ensures var f := FindFile(files, path);
            if f < |files| then Names(files, path, f) else forall g: nat :: !Names(files, path, g)
  {
    var k := SlashesSkipped(path);
    if FindFile(files, path) == |files| {
      forall g: nat | Names(files, path, g)
        ensures false
      {
        var j: nat :| Slashes(path, j) && files[g].name == path[j..];
        SlashesUnique(path, j, k);
      }
    }
  }

  /** A path names at most one file. */
  lemma NamesOne(files: seq<File>, path: string, f: nat, g: nat)
    requires Names(files, path, f) && Names(files, path, g)
    ensures f == g
  {
    var j: nat :| Slashes(path, j) && files[f].name == path[j..] && forall i | 0 <= i < f :: files[i].name != path[j..];
    var k: nat :| Slashes(path, k) && files[g].name == path[k..] && forall i | 0 <= i < g :: files[i].name != path[k..];
    SlashesUnique(path, j, k);
  }

  /** One of the three octal digits of the mode gives permission to write. */
  predicate MayWrite(mode: nat)
  {
    mode % 8 in {2, 3, 6, 7} || mode / 8 % 8 in {2, 3, 6, 7} || mode / 64 % 8 in {2, 3, 6, 7}
  }

  lemma Digit(m: nat)
    ensures m % 8 in {2, 3, 6, 7} <==> m / 2 % 2 == 1
  {
    var d := m % 8;
    assert m == m / 8 * 8 + d && m / 2 == m / 8 * 4 + d / 2;
    assert d / 2 % 2 == 1 <==> d in {2, 3, 6, 7};
  }

  lemma ModeDigits(mode: nat)
    ensures Writable(mode) <==> MayWrite(mode)
  {
    Digit(mode);
    Digit(mode / 8);
    Digit(mode / 64);
    assert mode / 8 / 2 == mode / 16 && mode / 64 / 2 == mode / 128;
  }

  lemma FlagBit(flags: int)
    ensures WantsWrite(flags) <==> flags % 4 in {2, 3}
  {
    var d := flags % 4;
    assert flags == flags / 4 * 4 + d && flags / 2 == flags / 4 * 2 + d / 2;
  }

  /** `ramfs_open` answers with the lowest free handle, at the beginning of the file that the path names. */
  lemma RamOpenMeaning(files: seq<File>, ram: seq<RamHandle>, path: string, flags: int)
    ensures var (r, ram') := RamOpen(files, ram, path, flags);
            && (r < 0 ==> ram' == ram)
            && (r >= 0 ==>
                  && r < |ram| && ram[r] == Free && (forall h | 0 <= h < r :: ram[h] != Free)
                  && exists f: nat :: Names(files, path, f) && ram' == ram[r := Reading(f, 0)])
  {
    FindMeaning(files, path);
  }

  /** Its errors: no such file, no permission, no handle. */
  lemma RamOpenErrors(files: seq<File>, ram: seq<RamHandle>, path: string, flags: int)
    ensures var r := RamOpen(files, ram, path, flags).0;
            && (r == -1 <==> forall f: nat :: !Names(files, path, f))
            && (r == -2 <==> flags % 4 in {2, 3} && exists f: nat :: Names(files, path, f) && !MayWrite(files[f].mode))
            && (r == -3 ==> forall h | 0 <= h < |ram| :: ram[h] != Free)
            && (r < 0 ==> r == -3 || r == -2 || r == -1)
  {
    FindMeaning(files, path);
    FlagBit(flags);
    var f := FindFile(files, path);
    if f < |files| {
      ModeDigits(files[f].mode);
      forall g: nat | Names(files, path, g)
        ensures g == f
      {
        NamesOne(files, path, f, g);
      }
    }
  }

  // ----- devices

  /** The paths of the three devices and their numbers. */
  predicate Device(path: string, d: nat)
  {
    (path == "/dev/console" && d == 1) || (path == "/dev/null" && d == 2) || (path == "/dev/zero" && d == 3)
  }

  /** `devfs_open`: no such device, no handle, or the lowest free handle, on the device of that path. */
  lemma DevOpenMeaning(dev: seq<nat>, path: string)
    ensures var (r, dev') := DevOpen(dev, path);
            && (r == -1 <==> forall d: nat :: !Device(path, d))
            && (r < 0 ==> dev' == dev && (r == -3 || r == -1))
            && (r == -3 ==> forall h | 0 <= h < |dev| :: dev[h] != 0)
            && (r >= 0 ==>
                  && r < |dev| && dev[r] == 0 && (forall h | 0 <= h < r :: dev[h] != 0)
                  && exists d: nat :: Device(path, d) && dev' == dev[r := d])
  {
    var d := ResolveDevice(path);
    if d != 0 {
      assert Device(path, d);
    }
  }

  // ----- registered file systems

  /** The name of the file system that is asked for a path. */
  function Server(path: string): string
  {
    if |path| >= 5 && path[..5] == "/dev/" then "devfs" else "ramfs"
  }

  /** The `i`-th registration is the first under this name. */
  ghost predicate Serves(list: seq<Registered>, name: string, i: nat)
  {
    i < |list| && list[i].name == name && forall j | 0 <= j < i :: list[j].name != name
  }

  lemma {:induction false} FindFsMeaning(list: seq<Registered>, name: string)
    ensures FindFs(list, name) == None ==> forall i: nat :: !Serves(list, name, i)
    ensures FindFs(list, name) != None ==>
              exists i: nat :: Serves(list, name, i) && FindFs(list, name) == Some(list[i].ops)
  {
    if list != [] && list[0].name == name {
      assert Serves(list, name, 0);
    } else if list != [] {
      FindFsMeaning(list[1..], name);
      forall i: nat | Serves(list, name, i)
        ensures i > 0 && Serves(list[1..], name, i - 1)
      {
        assert forall j | 0 <= j < i - 1 :: list[1..][j] == list[j + 1];
      }
      if i: nat :| Serves(list[1..], name, i) && FindFs(list[1..], name) == Some(list[1..][i].ops) {
        assert Serves(list, name, i + 1);
      }
    }
  }

  /** A path under /dev/ is asked of what was registered last as "devfs", any other of "ramfs". */
  lemma ResolveMeaning(list: seq<Registered>, path: string)
    ensures Resolve(list, path) == None ==> forall i: nat :: !Serves(list, Server(path), i)
    ensures Resolve(list, path) != None ==>
              exists i: nat :: Serves(list, Server(path), i) && Resolve(list, path) == Some(list[i].ops)
  {
    FindFsMeaning(list, Server(path));
  }

  /** A registration goes in front, under the first 15 characters of its name; nothing else changes. */
  lemma RegisterMeaning(t: Tables, name: Option<string>, ops: Option<FsType>, memory: bool)
    ensures var (r, t') := Register(t, name, ops, memory);
            && (r == -5 <==> name == None || ops == None)
            && (r == -7 <==> name != None && ops != None && !memory)
            && (r != 0 ==> t' == t && (r == -5 || r == -7))
            && (r == 0 ==>
                  && |t'.fsList| == |t.fsList| + 1 && t'.fsList[1..] == t.fsList
                  && t'.fds == t.fds && t'.ram == t.ram && t'.dev == t.dev
                  && var n := t'.fsList[0].name;
                     && n <= name.value && |n| == Min(|name.value|, 15) && t'.fsList[0].ops == ops.value)
  {
  }

  // ----- opening

  /** The descriptor `fd` of `t` is on the beginning of what `path` names. */
  ghost predicate OnNamed(files: seq<File>, t: Tables, fd: int, path: string)
  {
    && 0 <= fd < |t.fds| && t.fds[fd].fs != None
    && var h := t.fds[fd].handle;
       match t.fds[fd].fs.value
       case RamFs => h < |t.ram| && exists f: nat :: Names(files, path, f) && t.ram[h] == Reading(f, 0)
       case DevFs => h < |t.dev| && Device(path, t.dev[h])
  }

  /** `path` names a file or a device of the file system `k`. */
  ghost predicate Exists(files: seq<File>, k: FsType, path: string)
  {
    match k
    case RamFs => exists f: nat :: Names(files, path, f)
    case DevFs => exists d: nat :: Device(path, d)
  }

  /** `vfs_open` answers with a descriptor on what the path names, in the file system that serves the path. */
  lemma OpenNames(files: seq<File>, t: Tables, path: string, flags: int)
    requires Inv(files, t)
    ensures var (r, t') := Open(files, t, Some(path), flags);
            r >= 0 ==>
              && OnNamed(files, t', r, path) && t'.fds[r].flags == flags
              && exists i: nat :: Serves(t.fsList, Server(path), i) && t'.fds[r].fs == Some(t.fsList[i].ops)
  {
    ResolveMeaning(t.fsList, path);
    RamOpenMeaning(files, t.ram, path, flags);
    DevOpenMeaning(t.dev, path);
  }

  /** The errors of `vfs_open`: no path; nothing that serves the path, or nothing of that name once there is a
      descriptor; no descriptor; no permission. */
  lemma OpenErrors(files: seq<File>, t: Tables, path: Option<string>, flags: int)
    requires Inv(files, t)
    ensures var r := Open(files, t, path, flags).0;
            && (r == -5 <==> path == None)
            && (r == -3 <==> path != None && Resolve(t.fsList, path.value) != None && AllLive(t))
            && (r == -1 <==> path != None && (Resolve(t.fsList, path.value) == None
                             || (!AllLive(t) && !Exists(files, Resolve(t.fsList, path.value).value, path.value))))
            && (r == -2 <==>
                  && path != None && Resolve(t.fsList, path.value) == Some(RamFs) && !AllLive(t)
                  && flags % 4 in {2, 3}
                  && exists f: nat :: Names(files, path.value, f) && !MayWrite(files[f].mode))
            && (r < 0 ==> r in {-5, -3, -2, -1})
  {
    NeverFull(files, t);
    OpenMeaning(files, t, path, flags);
    if path != None {
      RamOpenErrors(files, t.ram, path.value, flags);
      DevOpenMeaning(t.dev, path.value);
    }
  }

  /** All descriptors behind the standard ones are open. */
  ghost predicate AllLive(t: Tables)
  {
    forall fd | 3 <= fd < MAX_OPEN_FILES :: Live(t, fd)
  }

  // ----- reading, writing and seeking

  /** A read of the console takes the characters typed up to a count, or through the first newline. */
  lemma {:induction false} LineMeaning(keys: seq<Byte>, count: nat, n: nat)
    requires n <= |keys| && n <= count && forall i | 0 <= i < n :: keys[i] != 10
    ensures var end := LineEnd(keys, count, n);
            && (forall i | 0 <= i < end - 1 :: keys[i] != 10)
            && (end == |keys| || end == count || (end > 0 && keys[end - 1] == 10))
    decreases |keys| - n
  {
    if n < |keys| && n < count && keys[n] != 10 {
      LineMeaning(keys, count, n + 1);
    }
  }

  /** A number of bytes as the signed word that is returned. */
  predicate Signed(r: int, n: int)
  {
    0 <= n < 0x1_0000_0000 && r == if n < 0x8000_0000 then n else n - 0x1_0000_0000
  }

  /** A read that reaches a file answers with the number of bytes that the handle moves by; and in a read that
      stays within a word, these are the count or all that is left. */
  lemma ReadResult(files: seq<File>, t: Tables, fd: int, f: nat, count: uint32, keys: seq<Byte>)
    requires Sized(files) && Inv(files, t) && On(files, t, fd, f) && t.fds[fd].flags % 4 != 0
    ensures HandlesInRange(files, t.ram)
    ensures var (r, t') := Read(files, t, fd, count, keys);
            var pos, h := Position(files, t, fd, f), t.fds[fd].handle;
            && t'.ram[h].Reading? && t'.ram[h].file == f
            && exists n: nat ::
                 && Signed(r, n) && n <= count && t'.ram[h].pos == (pos + n) % 0x1_0000_0000
                 && (n == 0 <==> pos == |files[f].data| || count == 0)
                 && (pos + count < 0x1_0000_0000 ==> n == Min(count, |files[f].data| - pos))
  {
    InRange(files, t);
    var n := ReadCount(Position(files, t, fd, f), |files[f].data|, count);
    var (r, t') := Read(files, t, fd, count, keys);
    assert Signed(r, n);
  }

  /** A read of a device: what is typed, nothing, or zeros. */
  lemma ReadDevice(files: seq<File>, t: Tables, fd: int, count: uint32, keys: seq<Byte>)
    requires Sized(files) && Inv(files, t) && 3 <= fd && Live(t, fd) && t.fds[fd].fs == Some(DevFs)
    requires t.fds[fd].flags % 4 != 0
    ensures HandlesInRange(files, t.ram)
    ensures t.fds[fd].handle < |t.dev| && 1 <= t.dev[t.fds[fd].handle] <= 3
    ensures var r, d := Read(files, t, fd, count, keys).0, t.dev[t.fds[fd].handle];
            && (d == 1 ==>
                  && 0 <= r <= |keys| && r <= count && (forall i | 0 <= i < r - 1 :: keys[i] != 10)
                  && (r == |keys| || r == count || (r > 0 && keys[r - 1] == 10)))
            && (d == 2 ==> r == 0)
            && (d == 3 ==> Signed(r, count))
  {
    InRange(files, t);
    assert Proper(t, fd) && InFile(files, t.ram[t.fds[fd].handle]);
    LineMeaning(keys, count, 0);
  }

  /** The reads that are refused, and nothing changes then. */
  lemma ReadRefused(files: seq<File>, t: Tables, fd: int, count: uint32, keys: seq<Byte>)
    requires Sized(files) && Inv(files, t)
    ensures HandlesInRange(files, t.ram)
    ensures var (r, t') := Read(files, t, fd, count, keys);
            && (!Live(t, fd) ==> r == -4 && t' == t)
            && (Live(t, fd) && t.fds[fd].flags % 4 == 0 ==> r == -2 && t' == t)
            && (Live(t, fd) && t.fds[fd].flags % 4 != 0 && fd < 3 ==> r == -6 && t' == t)
  {
    InRange(files, t);
    if Live(t, fd) {
      assert Proper(t, fd);
      AccessTests(t.fds[fd].flags);
    }
  }

  /** A write answers with the count where it reaches the screen or a device, and else with an error. */
  lemma WriteMeaning(files: seq<File>, t: Tables, fd: int, count: uint32)
    requires Inv(files, t)
    ensures var (r, t') := Write(t, fd, count);
            && t'.ram == t.ram && t'.dev == t.dev && t'.fsList == t.fsList
            && (!Live(t, fd) ==> r == -4)
            && (Live(t, fd) && t.fds[fd].flags % 4 == 0 ==> r == -2)
            && (Live(t, fd) && t.fds[fd].flags % 4 != 0 ==>
                  && (fd == 0 ==> r == -6)
                  && (fd == 1 || fd == 2 ==> Signed(r, count) && t' == t)
                  && (fd >= 3 && t.fds[fd].fs == Some(RamFs) ==> r == -2)
                  && (fd >= 3 && t.fds[fd].fs == Some(DevFs) ==> Signed(r, count)))
            && (!Live(t, fd) || t.fds[fd].flags % 4 == 0 || t.fds[fd].fs != Some(DevFs) ==> t' == t)
  {
    if 0 <= fd < |t.fds| {
      assert Proper(t, fd);
      if fd >= 3 && Live(t, fd) && t.fds[fd].fs == Some(DevFs) {
        assert InFile(files, t.ram[t.fds[fd].handle]);
      }
    }
  }

  /** A seek answers with the position that it leaves the handle at, and else with an error, changing nothing. */
  lemma SeekMeaning(files: seq<File>, t: Tables, fd: int, offset: int, whence: int)
    requires Sized(files) && Inv(files, t)
    ensures HandlesInRange(files, t.ram)
    ensures var (r, t') := Seek(files, t, fd, offset, whence);
            && t'.fds == t.fds && t'.dev == t.dev && t'.fsList == t.fsList
            && (!Live(t, fd) ==> r == -4 && t' == t)
            && (Live(t, fd) && fd < 3 ==> r == -6 && t' == t)
            && (Live(t, fd) && fd >= 3 && (t.fds[fd].fs == Some(DevFs) || !(0 <= whence <= 2)) ==> r == -5 && t' == t)
            && (forall f: nat | On(files, t, fd, f) && 0 <= whence <= 2 ::
                  var h := t.fds[fd].handle;
                  t'.ram[h].Reading? && t'.ram[h].file == f && Signed(r, t'.ram[h].pos))
  {
    InRange(files, t);
    if Live(t, fd) {
      assert Proper(t, fd);
    }
  }

  /** Closing a descriptor that is used more than once takes one use away; it stays open on its handle. */
  lemma CloseShared(t: Tables, fd: int)
    requires Live(t, fd) && t.fds[fd].refCount > 1
    ensures var (r, t') := Close(t, fd);
            && r == 0 && Live(t', fd) && t'.ram == t.ram && t'.dev == t.dev && t'.fsList == t.fsList
            && t'.fds[fd].refCount + 1 == t.fds[fd].refCount
            && t'.fds[fd].(refCount := 0) == t.fds[fd].(refCount := 0)
            && |t'.fds| == |t.fds| && forall i | 0 <= i < |t.fds| && i != fd :: t'.fds[i] == t.fds[i]
  {
  }

  // ----- the initial tables

  /** After initialisation both file systems serve their paths, writing to the two outputs works, and the input
      has nothing to read. */
  lemma InitialMeaning(files: seq<File>, path: string, count: uint32, keys: seq<Byte>)
    requires Sized(files)
    ensures Resolve(Initial().fsList, path) == Some(if |path| >= 5 && path[..5] == "/dev/" then DevFs else RamFs)
    ensures forall fd | 0 <= fd < 3 :: Live(Initial(), fd) && Initial().fds[fd].fs == None
    ensures forall fd | 3 <= fd < MAX_OPEN_FILES :: !Live(Initial(), fd)
    ensures forall fd | 1 <= fd < 3 :: Initial().fds[fd].flags % 4 != 0 && Signed(Write(Initial(), fd, count).0, count)
    ensures Read(files, Initial(), 0, count, keys).0 == -6
  {
    var t := Initial();
    FindFsMeaning(t.fsList, Server(path));
    assert t.fsList[1..][0].name == "ramfs";
    assert t.fds[0] == OpenFile(None, 0, 0, 1, 1) && t.fds[1] == t.fds[2] == OpenFile(None, 0, 0, 2, 1);
  }
}
