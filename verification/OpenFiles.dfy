/** The virtual file system's tables as values: the file descriptors, and behind
    them the private handle tables of the two file systems. */
module OpenFiles {
  import opened Bytes

  const MAX_OPEN_FILES: nat := 32
  const TWO32: int := 0x1_0000_0000
  const TWO31: int := 0x8000_0000

  type uint32 = x: int | 0 <= x < 0x1_0000_0000

  const ENOENT: int := -1
  const EACCES: int := -2
  const EMFILE: int := -3
  const EBADF: int := -4
  const EINVAL: int := -5
  const EIO: int := -6
  const ENOMEM: int := -7

  const CONSOLE: nat := 1
  const NULL_DEVICE: nat := 2
  const ZERO_DEVICE: nat := 3

  datatype Option<T> = None | Some(value: T)

  /** A file of the RAM file system; its size is the length of `data`. */
  datatype File = File(name: string, data: seq<Byte>, mode: nat)

  datatype FsType = RamFs | DevFs

  datatype Registered = Registered(name: string, ops: FsType)

  /** `struct file_handle` */
  datatype OpenFile = OpenFile(fs: Option<FsType>, handle: nat, pos: uint32, flags: int, refCount: nat)

  const CLOSED: OpenFile := OpenFile(None, 0, 0, 0, 0)

  /** `struct ramfs_private`: no file, or a file of the list and a position in it. */
  datatype RamHandle = Free | Reading(file: nat, pos: uint32)

  /** `ram` and `dev` are the private tables; a device number of 0 marks a free handle. */
  datatype Tables = Tables(fsList: seq<Registered>, fds: seq<OpenFile>, ram: seq<RamHandle>, dev: seq<nat>)

  /** An unsigned word read as a signed one. */
  function Int32(x: uint32): int
  {
    if x < TWO31 then x else x - TWO32
  }

  /** An integer stored in an unsigned word. */
  function Word(x: int): uint32
  {
    x % TWO32
  }

  ghost predicate Sized(files: seq<File>)
  {
    forall i | 0 <= i < |files| :: |files[i].data| < TWO32
  }

  function Min(a: int, b: int): int
  {
    if a <= b then a else b
  }

  // ----- searches

  function FindFs(list: seq<Registered>, name: string): Option<FsType>
  {
    if list == [] then None
    else if list[0].name == name then Some(list[0].ops)
    else FindFs(list[1..], name)
  }

  function Resolve(list: seq<Registered>, path: string): Option<FsType>
  {
    FindFs(list, if "/dev/" <= path then "devfs" else "ramfs")
  }

  function SkipSlashes(path: string): string
  {
    if path != [] && path[0] == '/' then SkipSlashes(path[1..]) else path
  }

  /** The first file from `i` on with this name, or the number of files. */
  function FindFrom(files: seq<File>, name: string, i: nat): (r: nat)
    requires i <= |files|
    ensures i <= r <= |files| && (r < |files| ==> files[r].name == name)
    ensures forall j | i <= j < r :: files[j].name != name
    decreases |files| - i
  {
    if i == |files| || files[i].name == name then i else FindFrom(files, name, i + 1)
  }

  function FindFile(files: seq<File>, path: string): (r: nat)
    ensures r <= |files|
  {
    FindFrom(files, SkipSlashes(path), 0)
  }

  function ResolveDevice(path: string): (d: nat)
    ensures d <= 3
  {
    if path == "/dev/console" then CONSOLE
    else if path == "/dev/null" then NULL_DEVICE
    else if path == "/dev/zero" then ZERO_DEVICE else 0
  }

  function FreeFd(fds: seq<OpenFile>, i: nat): (r: nat)
    requires i <= |fds|
    ensures i <= r <= |fds| && (r < |fds| ==> fds[r].refCount == 0)
    ensures forall j | i <= j < r :: fds[j].refCount != 0
    decreases |fds| - i
  {
    if i == |fds| || fds[i].refCount == 0 then i else FreeFd(fds, i + 1)
  }

  function FreeRam(ram: seq<RamHandle>, i: nat): (r: nat)
    requires i <= |ram|
    ensures i <= r <= |ram| && (r < |ram| ==> ram[r] == Free)
    ensures forall j | i <= j < r :: ram[j] != Free
    decreases |ram| - i
  {
    if i == |ram| || ram[i] == Free then i else FreeRam(ram, i + 1)
  }

  function FreeDev(dev: seq<nat>, i: nat): (r: nat)
    requires i <= |dev|
    ensures i <= r <= |dev| && (r < |dev| ==> dev[r] == 0)
    ensures forall j | i <= j < r :: dev[j] != 0
    decreases |dev| - i
  {
    if i == |dev| || dev[i] == 0 then i else FreeDev(dev, i + 1)
  }

  /** One of the three write bits of a mode. */
  predicate Writable(mode: nat)
  {
    mode / 2 % 2 == 1 || mode / 16 % 2 == 1 || mode / 128 % 2 == 1
  }

  predicate WantsWrite(flags: int)
  {
    flags / 2 % 2 == 1
  }

  // ----- the operations of the RAM file system

  /** `ramfs_open`: a handle or an error. */
  function RamOpen(files: seq<File>, ram: seq<RamHandle>, path: string, flags: int): (int, seq<RamHandle>)
  {
    var file, handle := FindFile(files, path), FreeRam(ram, 0);
    if file == |files| then (ENOENT, ram)
    else if WantsWrite(flags) && !Writable(files[file].mode) then (EACCES, ram)
    else if handle == |ram| then (EMFILE, ram)
    else (handle, ram[handle := Reading(file, 0)])
  }

  predicate RamOk(files: seq<File>, ram: seq<RamHandle>, handle: int)
  {
    0 <= handle < |ram| && ram[handle] != Free && ram[handle].file < |files|
  }

  /** How many bytes `ramfs_read` copies; the sum is one of words. */
  function ReadCount(pos: uint32, size: uint32, count: uint32): (n: uint32)
    ensures n <= count
  {
    if pos >= size then 0
    else if Word(pos + count) > size then size - pos else count
  }

  function RamRead(files: seq<File>, ram: seq<RamHandle>, handle: int, count: uint32): (int, seq<RamHandle>)
    requires Sized(files) && (0 <= handle < |ram| && ram[handle] != Free ==> ram[handle].file < |files|)
  {
    if !RamOk(files, ram, handle) then (EBADF, ram)
    else
      var h := ram[handle];
      var n := ReadCount(h.pos, |files[h.file].data|, count);
      (Int32(n), ram[handle := Reading(h.file, Word(h.pos + n))])
  }

  /** Where `ramfs_seek` leaves the position. */
  function SeekTo(pos: uint32, size: uint32, offset: int, whence: int): (p: uint32)
    requires 0 <= whence <= 2
  {
    var p := Word((if whence == 0 then 0 else if whence == 1 then pos else size) + offset);
    if p > size then size else p
  }

  function RamSeek(files: seq<File>, ram: seq<RamHandle>, handle: int, offset: int, whence: int): (int, seq<RamHandle>)
    requires Sized(files) && (0 <= handle < |ram| && ram[handle] != Free ==> ram[handle].file < |files|)
  {
    if !RamOk(files, ram, handle) then (EBADF, ram)
    else if !(0 <= whence <= 2) then (EINVAL, ram)
    else
      var h := ram[handle];
      var p := SeekTo(h.pos, |files[h.file].data|, offset, whence);
      (Int32(p), ram[handle := Reading(h.file, p)])
  }

  function RamClose(ram: seq<RamHandle>, handle: int): (int, seq<RamHandle>)
  {
    if !(0 <= handle < |ram|) || ram[handle] == Free then (EBADF, ram) else (0, ram[handle := Free])
  }

  // ----- the operations of the device file system

  function DevOpen(dev: seq<nat>, path: string): (int, seq<nat>)
  {
    var device, handle := ResolveDevice(path), FreeDev(dev, 0);
    if device == 0 then (ENOENT, dev)
    else if handle == |dev| then (EMFILE, dev)
    else (handle, dev[handle := device])
  }

  function DevClose(dev: seq<nat>, handle: int): (int, seq<nat>)
  {
    if !(0 <= handle < |dev|) || dev[handle] == 0 then (EBADF, dev) else (0, dev[handle := 0])
  }

  /** Where a read of the console that has taken `n` of the characters typed stops: at `count`, behind a
      newline, or when there are no more. */
  function LineEnd(keys: seq<Byte>, count: nat, n: nat): (end: nat)
    requires n <= |keys| && n <= count
    ensures n <= end <= |keys| && end <= count
    decreases |keys| - n
  {
    if n == |keys| || n == count then n
    else if keys[n] == 10 then n + 1
    else LineEnd(keys, count, n + 1)
  }

  function Line(keys: seq<Byte>, count: nat): (n: nat)
    ensures n <= |keys| && n <= count
  {
    LineEnd(keys, count, 0)
  }

  function DevRead(dev: seq<nat>, handle: int, count: uint32, keys: seq<Byte>): int
  {
    if !(0 <= handle < |dev|) || dev[handle] == 0 then EBADF
    else if dev[handle] == CONSOLE then Line(keys, count)
    else if dev[handle] == NULL_DEVICE then 0
    else if dev[handle] == ZERO_DEVICE then Int32(count) else EIO
  }

  function DevWrite(dev: seq<nat>, handle: int, count: uint32): int
  {
    if !(0 <= handle < |dev|) || dev[handle] == 0 then EBADF
    else if dev[handle] <= 3 then Int32(count) else EIO
  }

  // ----- the operations of the virtual file system

  predicate Live(t: Tables, fd: int)
  {
    0 <= fd < |t.fds| && t.fds[fd].refCount != 0
  }

  /** `vfs_register_fs`; names are cut to 15 characters, a null argument is `None`.  `memory` tells
      whether kmalloc succeeds. */
  function Register(t: Tables, name: Option<string>, ops: Option<FsType>, memory: bool): (int, Tables)
  {
    if name.None? || ops.None? then (EINVAL, t)
    else if !memory then (ENOMEM, t)
    else (0, t.(fsList := [Registered(Cut(name.value), ops.value)] + t.fsList))
  }

  function Cut(name: string): string
  {
    if |name| <= 15 then name else name[..15]
  }

  function FsOpen(files: seq<File>, t: Tables, ops: FsType, path: string, flags: int): (int, Tables)
  {
    match ops
    case RamFs => var (r, ram) := RamOpen(files, t.ram, path, flags); (r, t.(ram := ram))
    case DevFs => var (r, dev) := DevOpen(t.dev, path); (r, t.(dev := dev))
  }

  /** `vfs_open`; a null path is `None`. */
  function Open(files: seq<File>, t: Tables, path: Option<string>, flags: int): (int, Tables)
    requires |t.fds| >= 3
  {
    if path.None? then (EINVAL, t)
    else
      var fs := Resolve(t.fsList, path.value);
      if fs.None? then (ENOENT, t)
      else
        var fd := FreeFd(t.fds, 3);
        if fd == |t.fds| then (EMFILE, t)
        else
          var (r, t') := FsOpen(files, t, fs.value, path.value, flags);
          if r < 0 then (r, t')
          else (fd, t'.(fds := t.fds[fd := OpenFile(fs, r, 0, flags, 1)]))
  }

  function FsClose(t: Tables, f: OpenFile): Tables
  {
    if f.fs.None? then t
    else match f.fs.value
      case RamFs => t.(ram := RamClose(t.ram, f.handle).1)
      case DevFs => t.(dev := DevClose(t.dev, f.handle).1)
  }

  /** `vfs_close` */
  function Close(t: Tables, fd: int): (int, Tables)
  {
    if !Live(t, fd) then (EBADF, t)
    else
      var f := t.fds[fd];
      if f.refCount > 1 then (0, t.(fds := t.fds[fd := f.(refCount := f.refCount - 1)]))
      else (0, FsClose(t, f).(fds := t.fds[fd := CLOSED]))
  }

  /** The test `!(flags & O_RDONLY) && !(flags & O_RDWR)` of `vfs_read`, and the one of `vfs_write`. */
  predicate ReadDenied(flags: int)
  {
    flags % 2 == 0 && flags % 4 == 0
  }

  predicate WriteDenied(flags: int)
  {
    flags / 2 % 2 == 0 && flags % 4 == 0
  }

  /** What both tests come to: only flags whose two low bits are both clear are denied, so a descriptor
      opened for writing only may be read, and one opened for reading only may be written. */
  lemma AccessTests(flags: int)
    ensures ReadDenied(flags) <==> flags % 4 == 0
    ensures WriteDenied(flags) <==> flags % 4 == 0
  {
  }

  /** The position kept in the descriptor moves by a positive result. */
  function Advance(t: Tables, fd: nat, r: int): Tables
    requires fd < |t.fds|
  {
    if r > 0 then t.(fds := t.fds[fd := t.fds[fd].(pos := Word(t.fds[fd].pos + r))]) else t
  }

  ghost predicate HandlesInRange(files: seq<File>, ram: seq<RamHandle>)
  {
    forall h | 0 <= h < |ram| && ram[h] != Free :: ram[h].file < |files|
  }

  /** `vfs_read`; `keys` are the characters that the keyboard has ready. */
  function Read(files: seq<File>, t: Tables, fd: int, count: uint32, keys: seq<Byte>): (int, Tables)
    requires Sized(files) && HandlesInRange(files, t.ram)
  {
    if !Live(t, fd) then (EBADF, t)
    else
      var f := t.fds[fd];
      if ReadDenied(f.flags) then (EACCES, t)
      else if f.fs.None? then (EIO, t)
      else match f.fs.value
        case RamFs => var (r, ram) := RamRead(files, t.ram, f.handle, count); (r, Advance(t.(ram := ram), fd, r))
        case DevFs => var r := DevRead(t.dev, f.handle, count, keys); (r, Advance(t, fd, r))
  }

  /** `vfs_write` of `count` bytes. */
  function Write(t: Tables, fd: int, count: uint32): (int, Tables)
  {
    if !Live(t, fd) then (EBADF, t)
    else
      var f := t.fds[fd];
      if WriteDenied(f.flags) then (EACCES, t)
      else if fd == 1 || fd == 2 then (Int32(count), t)
      else if f.fs.None? then (EIO, t)
      else match f.fs.value
        case RamFs => (EACCES, t)
        case DevFs => var r := DevWrite(t.dev, f.handle, count); (r, Advance(t, fd, r))
  }

  /** `vfs_seek`: the position kept in the descriptor does not move. */
  function Seek(files: seq<File>, t: Tables, fd: int, offset: int, whence: int): (int, Tables)
    requires Sized(files) && HandlesInRange(files, t.ram)
  {
    if !Live(t, fd) then (EBADF, t)
    else
      var f := t.fds[fd];
      if f.fs.None? then (EIO, t)
      else match f.fs.value
        case RamFs => var (r, ram) := RamSeek(files, t.ram, f.handle, offset, whence); (r, t.(ram := ram))
        case DevFs => (EINVAL, t)
  }

  /** After `vfs_init`, `ramfs_init` and `devfs_init`. */
  function Initial(): (t: Tables)
    ensures |t.fds| == |t.ram| == |t.dev| == MAX_OPEN_FILES
  {
    Tables([Registered("devfs", DevFs), Registered("ramfs", RamFs)],
           [OpenFile(None, 0, 0, 1, 1), OpenFile(None, 0, 0, 2, 1), OpenFile(None, 0, 0, 2, 1)]
           + seq(MAX_OPEN_FILES - 3, i => CLOSED),
           seq(MAX_OPEN_FILES, i => Free), seq(MAX_OPEN_FILES, i => 0))
  }
}
